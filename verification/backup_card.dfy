/** What a backup card shows and enables (frontend/src/components/BackupCard.tsx): the
    rounded duration, the status badge, the detail rows and the two buttons that only a
    completed backup enables. */
module BackupCard {
  import opened Wrappers
  import opened DatabaseUtils
  import opened BackupUtils

  // ---------------------------------------------------------------- duration

  /** `Math.round(ms / 1000)`: the nearest whole second, halves rounded up. JavaScript's
      `Math.round(x)` is the floor of `x + 0.5`; for `x = ms / 1000` that is the floor of
      `(ms + 500) / 1000`, which Dafny's division computes for every sign of `ms`. */
  function RoundSeconds(ms: int): (s: int)
    ensures 1000 * s - 500 <= ms < 1000 * s + 500
  {
    (ms + 500) / 1000
  }

  /** At most one whole number of seconds is within half a second of a duration, so the
      rounding above is the only one. */
  lemma RoundSecondsUnique(ms: int, s: int)
    requires 1000 * s - 500 <= ms < 1000 * s + 500
    ensures s == RoundSeconds(ms)
  {
  }

  /** The card's duration in seconds: present exactly when the backup has an end time. */
  function Duration(b: Backup): (d: Option<int>)
    ensures d.Some? <==> b.endTime.Some?
    ensures d.Some? ==> 1000 * d.value - 500 <= b.endTime.value - b.startTime < 1000 * d.value + 500
  {
    match b.endTime
    case None => None
    case Some(end) => Some(RoundSeconds(end - b.startTime))
  }

  /** A run that ends no earlier than it starts has a duration of no seconds or more. */
  lemma DurationNonNegative(b: Backup)
    requires b.endTime.Some? && b.endTime.value >= b.startTime
    ensures Duration(b).value >= 0
  {
  }

  // ---------------------------------------------------------------- buttons and badge

  /** Download and Restore are disabled unless the backup has completed. */
  predicate DownloadEnabled(b: Backup) {
    b.status == Completed
  }

  predicate RestoreEnabled(b: Backup) {
    b.status == Completed
  }

  /** A backup just made by `createBackup` can be restored or downloaded exactly when the
      run succeeded. */
  lemma CreatedBackupEnablement(c: DatabaseConnection, config: BackupConfig, inputs: RunInputs)
    ensures var r := CreateBackup(c, config, inputs);
      && (RestoreEnabled(r.backup) <==> r.success)
      && (DownloadEnabled(r.backup) <==> !inputs.failed)
  {
  }

  /** The status badges on a card: each status shows its own badge when it matches. */
  function Badges(s: BackupStatus): (r: seq<string>)
    ensures |r| == 1
    ensures r[0] in {"Completed", "Pending", "In Progress", "Failed"}
    ensures s == Completed ==> r == ["Completed"]
    ensures s == Pending ==> r == ["Pending"]
    ensures s == InProgress ==> r == ["In Progress"]
    ensures s == Failed ==> r == ["Failed"]
  {
    (if s == Completed then ["Completed"] else [])
    + (if s == Pending then ["Pending"] else [])
    + (if s == InProgress then ["In Progress"] else [])
    + (if s == Failed then ["Failed"] else [])
  }

  /** Different statuses show different badges, so the badge tells the status. */
  lemma BadgesInjective(s: BackupStatus, t: BackupStatus)
    requires Badges(s) == Badges(t)
    ensures s == t
  {
    assert Badges(s)[0] == Badges(t)[0];
    assert "Completed" != "Pending" && "Completed" != "In Progress" && "Completed" != "Failed";
    assert "Pending" != "In Progress" && "Pending" != "Failed" && "In Progress" != "Failed";
  }

  // ---------------------------------------------------------------- detail rows

  /** The optional detail rows of the card, in display order: size, duration, error. */
  datatype Details = Details(size: Option<string>, duration: Option<string>, error: Option<string>)

  /** JavaScript truthiness of the optional size and error: absent, 0 and "" are hidden. */
  predicate SizeShown(b: Backup) {
    b.size.Some? && b.size.value != 0
  }

  predicate ErrorShown(b: Backup) {
    b.error.Some? && b.error.value != ""
  }

  /** The detail rows of the card, each shown when its value is present and truthy. */
  function Rows(b: Backup): (r: Details)
    ensures r.size.Some? <==> SizeShown(b)
    ensures r.size.Some? ==> r.size.value == FormatFileSize(b.size.value)
    ensures r.duration.Some? <==> b.endTime.Some?
    ensures r.duration.Some? ==> r.duration.value == FormatDuration(Duration(b).value)
    ensures r.error.Some? <==> ErrorShown(b)
    ensures r.error.Some? ==> r.error == b.error
  {
    var d := Duration(b);
    Details(
      if SizeShown(b) then Some(FormatFileSize(b.size.value)) else None,
      if d.Some? then Some(FormatDuration(d.value)) else None,
      if ErrorShown(b) then b.error else None)
  }

  /** A completed run made by `createBackup` shows its duration, and shows its size unless
      the dump was empty; a failed run shows its duration and its error. */
  lemma CreatedBackupRows(c: DatabaseConnection, config: BackupConfig, inputs: RunInputs)
    ensures var b := CreateBackup(c, config, inputs).backup;
      && Rows(b).duration.Some?
      && (!inputs.failed ==> (Rows(b).size.Some? <==> inputs.size != 0) && Rows(b).error.None?)
      && (inputs.failed ==> Rows(b).size.None? && Rows(b).error == Some(FailureMessage))
  {
    var b := CreateBackup(c, config, inputs).backup;
    assert b.endTime.Some?;
    assert FailureMessage != "";
  }
}
