/** The backup history page (frontend/src/pages/Backups.tsx): filtering by name, status
    and connection, resetting the filters, deleting a backup from both the full and the
    shown list, the connection lookup that guards a restore, and the newest-first order
    of the history. */
module Backups {
  import opened Wrappers
  import opened Text
  import opened Seqs
  import opened DatabaseUtils
  import opened BackupUtils

  // ---------------------------------------------------------------- filters

  /** The status selector: every status, or exactly one. */
  datatype StatusFilter = AllStatuses | Only(status: BackupStatus)

  /** The three filter controls. The connection selector holds a connection id, or the
      text "all" for every connection. */
  datatype Filters = Filters(term: string, status: StatusFilter, database: string)

  const AllConnections := "all"

  /** What the controls ask of a backup: the lower-cased name contains the lower-cased
      search text (unless it is empty), the status is the selected one, and the backup
      belongs to the selected connection. */
  predicate Matches(b: Backup, f: Filters) {
    && (f.term != "" ==> Contains(Lower(b.name), Lower(f.term)))
    && (f.status.Only? ==> b.status == f.status.status)
    && (f.database != AllConnections ==> b.connectionId == f.database)
  }

  function NameStage(f: Filters): Backup -> bool {
    (b: Backup) => f.term == "" || Contains(Lower(b.name), Lower(f.term))
  }

  function StatusStage(f: Filters): Backup -> bool {
    (b: Backup) => f.status.AllStatuses? || b.status == f.status.status
  }

  function DatabaseStage(f: Filters): Backup -> bool {
    (b: Backup) => f.database == AllConnections || b.connectionId == f.database
  }

  function MatchesFn(f: Filters): Backup -> bool {
    (b: Backup) => Matches(b, f)
  }

  /** `applyFilters`: the name filter when there is search text, then the status filter
      unless it is "all", then the connection filter unless it is "all". */
  function ApplyFilters(backups: seq<Backup>, f: Filters): (r: seq<Backup>)
    ensures forall i :: 0 <= i < |r| ==> r[i] in backups && Matches(r[i], f)
  {
    var byName := if f.term != "" then Filter(backups, NameStage(f)) else backups;
    var byStatus := if f.status.Only? then Filter(byName, StatusStage(f)) else byName;
    if f.database != AllConnections then Filter(byStatus, DatabaseStage(f)) else byStatus
  }

  /** A skipped stage is a filter whose predicate holds of everything. */
  lemma StagesAreFilters(backups: seq<Backup>, f: Filters)
    ensures (if f.term != "" then Filter(backups, NameStage(f)) else backups)
         == Filter(backups, NameStage(f))
    ensures (if f.status.Only? then Filter(backups, StatusStage(f)) else backups)
         == Filter(backups, StatusStage(f))
    ensures (if f.database != AllConnections then Filter(backups, DatabaseStage(f)) else backups)
         == Filter(backups, DatabaseStage(f))
  {
    if f.term == "" { FilterKeepsAll(backups, NameStage(f)); }
    if f.status.AllStatuses? { FilterKeepsAll(backups, StatusStage(f)); }
    if f.database == AllConnections { FilterKeepsAll(backups, DatabaseStage(f)); }
  }

  /** The three stages together are one filter by `Matches`. */
  lemma ApplyFiltersIsOneFilter(backups: seq<Backup>, f: Filters)
    ensures ApplyFilters(backups, f) == Filter(backups, MatchesFn(f))
  {
    var n, s, d := NameStage(f), StatusStage(f), DatabaseStage(f);
    var ns := (b: Backup) => n(b) && s(b);
    StagesAreFilters(backups, f);
    var byName := Filter(backups, n);
    StagesAreFilters(byName, f);
    FilterFuse(backups, n, s, ns);
    var byStatus := Filter(backups, ns);
    StagesAreFilters(byStatus, f);
    FilterFuse(backups, ns, d, MatchesFn(f));
  }

  /** Completeness: every backup meeting all three conditions is shown. */
  lemma ApplyFiltersComplete(backups: seq<Backup>, f: Filters)
    ensures forall i :: 0 <= i < |backups| && Matches(backups[i], f) ==>
              backups[i] in ApplyFilters(backups, f)
  {
    ApplyFiltersIsOneFilter(backups, f);
    var keep := MatchesFn(f);
    assert forall i :: 0 <= i < |backups| && Matches(backups[i], f) ==> keep(backups[i]);
  }

  /** The shown backups keep the order of the history. */
  lemma ApplyFiltersKeepsOrder(backups: seq<Backup>, f: Filters)
    ensures IsSubsequence(ApplyFilters(backups, f), backups)
  {
    ApplyFiltersIsOneFilter(backups, f);
    FilterIsSubsequence(backups, MatchesFn(f));
  }

  /** Filtering an already filtered list with the same controls changes nothing. */
  lemma ApplyFiltersIdempotent(backups: seq<Backup>, f: Filters)
    ensures ApplyFilters(ApplyFilters(backups, f), f) == ApplyFilters(backups, f)
  {
    ApplyFiltersIsOneFilter(backups, f);
    ApplyFiltersIsOneFilter(ApplyFilters(backups, f), f);
    FilterIdempotent(backups, MatchesFn(f));
  }

  /** Two settings of the controls applied one after the other commute. */
  lemma ApplyFiltersCommute(backups: seq<Backup>, f: Filters, g: Filters)
    ensures ApplyFilters(ApplyFilters(backups, f), g) == ApplyFilters(ApplyFilters(backups, g), f)
  {
    ApplyFiltersIsOneFilter(backups, f);
    ApplyFiltersIsOneFilter(backups, g);
    ApplyFiltersIsOneFilter(ApplyFilters(backups, f), g);
    ApplyFiltersIsOneFilter(ApplyFilters(backups, g), f);
    FilterCommute(backups, MatchesFn(f), MatchesFn(g));
  }

  /** Lower-casing of letters is idempotent. */
  lemma LowerIdempotent(s: string)
    ensures Lower(Lower(s)) == Lower(s)
  {
  }

  /** The search ignores the case of the search text. */
  lemma SearchIgnoresCase(backups: seq<Backup>, f: Filters)
    ensures ApplyFilters(backups, f.(term := Lower(f.term))) == ApplyFilters(backups, f)
  {
    var g := f.(term := Lower(f.term));
    LowerIdempotent(f.term);
    assert (g.term == "") == (f.term == "");
    assert forall b :: Matches(b, g) == Matches(b, f);
    ApplyFiltersIsOneFilter(backups, f);
    ApplyFiltersIsOneFilter(backups, g);
    FilterFuse(backups, MatchesFn(f), (b: Backup) => true, MatchesFn(g));
    FilterKeepsAll(Filter(backups, MatchesFn(f)), (b: Backup) => true);
  }

  /** The controls after `handleResetFilters`. */
  const ResetFilters := Filters("", AllStatuses, AllConnections)

  /** With the controls reset every backup is shown, which is what `handleResetFilters`
      displays directly. */
  lemma ResetShowsAll(backups: seq<Backup>)
    ensures ApplyFilters(backups, ResetFilters) == backups
  {
  }

  // ---------------------------------------------------------------- delete

  /** The full history and the list currently shown. */
  datatype HistoryView = HistoryView(backups: seq<Backup>, shown: seq<Backup>)

  function BackupIdIsNot(id: string): Backup -> bool {
    (b: Backup) => b.id != id
  }

  /** `handleDeleteBackup`: the marked backup's id is removed from both lists; with none
      marked nothing happens. */
  function DeleteBackup(v: HistoryView, target: Option<Backup>): (r: HistoryView)
    ensures target.None? ==> r == v
    ensures target.Some? ==>
      && (forall i :: 0 <= i < |r.backups| ==> r.backups[i].id != target.value.id)
      && (forall i :: 0 <= i < |r.shown| ==> r.shown[i].id != target.value.id)
      && (forall i :: 0 <= i < |r.backups| ==> r.backups[i] in v.backups)
      && (forall i :: 0 <= i < |r.shown| ==> r.shown[i] in v.shown)
      && (forall i :: 0 <= i < |v.backups| && v.backups[i].id != target.value.id ==>
            v.backups[i] in r.backups)
      && (forall i :: 0 <= i < |v.shown| && v.shown[i].id != target.value.id ==>
            v.shown[i] in r.shown)
  {
    match target
    case None => v
    case Some(t) =>
      HistoryView(Filter(v.backups, BackupIdIsNot(t.id)), Filter(v.shown, BackupIdIsNot(t.id)))
  }

  /** When the shown list is the filtered history, it still is after a delete. */
  lemma DeleteKeepsViewCoherent(v: HistoryView, f: Filters, target: Option<Backup>)
    requires v.shown == ApplyFilters(v.backups, f)
    ensures var r := DeleteBackup(v, target); r.shown == ApplyFilters(r.backups, f)
  {
    match target
    case None =>
    case Some(t) =>
      var r := DeleteBackup(v, target);
      ApplyFiltersIsOneFilter(v.backups, f);
      ApplyFiltersIsOneFilter(r.backups, f);
      FilterCommute(v.backups, MatchesFn(f), BackupIdIsNot(t.id));
  }

  // ---------------------------------------------------------------- restore guard

  /** `mockDatabases.find(db => db.id === id)`: the first connection with that id. */
  function FindConnection(dbs: seq<DatabaseConnection>, id: string): (r: Option<DatabaseConnection>)
    ensures r.None? <==> forall i :: 0 <= i < |dbs| ==> dbs[i].id != id
    ensures r.Some? ==>
              && r.value.id == id
              && exists k :: 0 <= k < |dbs| && dbs[k] == r.value
                   && forall j :: 0 <= j < k ==> dbs[j].id != id
    decreases |dbs|
  {
    if |dbs| == 0 then None
    else if dbs[0].id == id then Some(dbs[0])
    else
      var r := FindConnection(dbs[1..], id);
      assert forall i :: 1 <= i < |dbs| ==> dbs[i] == dbs[1..][i - 1];
      if r.Some? then
        ghost var k :| 0 <= k < |dbs[1..]| && dbs[1..][k] == r.value
                       && forall j :: 0 <= j < k ==> dbs[1..][j].id != id;
        assert dbs[k + 1] == r.value;
        r
      else r
  }

  /** `handleRestoreBackup`: the connection a restore is started on, if the backup's
      connection exists; otherwise nothing is started. */
  function RestoreTarget(dbs: seq<DatabaseConnection>, b: Backup): (r: Option<DatabaseConnection>)
    ensures r.Some? ==> r.value.id == b.connectionId && r.value in dbs
    ensures r.None? ==> forall i :: 0 <= i < |dbs| ==> dbs[i].id != b.connectionId
  {
    FindConnection(dbs, b.connectionId)
  }

  // ---------------------------------------------------------------- history order

  /** Newest first. */
  predicate NewestFirst(s: seq<Backup>) {
    forall i, j :: 0 <= i < j < |s| ==> s[i].startTime >= s[j].startTime
  }

  /** A newest-first list stays so with an entry in front that is at least as new. */
  lemma NewestFirstCons(x: Backup, s: seq<Backup>)
    requires NewestFirst(s)
    requires |s| > 0 ==> x.startTime >= s[0].startTime
    ensures NewestFirst([x] + s)
  {
    var t := [x] + s;
    forall i, j | 0 <= i < j < |t| ensures t[i].startTime >= t[j].startTime {
      if i == 0 {
        assert t[j] == s[j - 1];
        assert s[0].startTime >= s[j - 1].startTime;
      } else {
        assert t[i] == s[i - 1] && t[j] == s[j - 1];
      }
    }
  }

  /** Inserts `b` into a newest-first list, ahead of the entries that are no newer. */
  function Insert(b: Backup, s: seq<Backup>): (r: seq<Backup>)
    requires NewestFirst(s)
    ensures NewestFirst(r) && multiset(r) == multiset(s) + multiset{b}
    ensures |r| == |s| + 1 && (r[0] == b || (|s| > 0 && r[0] == s[0]))
    decreases |s|
  {
    if |s| == 0 || b.startTime >= s[0].startTime then
      NewestFirstCons(b, s);
      [b] + s
    else
      var rest := Insert(b, s[1..]);
      assert s == [s[0]] + s[1..];
      NewestFirstCons(s[0], rest);
      [s[0]] + rest
  }

  /** `backups.sort((a, b) => b.startTime - a.startTime)`: the history newest first. */
  function SortNewestFirst(s: seq<Backup>): (r: seq<Backup>)
    ensures NewestFirst(r) && multiset(r) == multiset(s)
    decreases |s|
  {
    if |s| == 0 then []
    else
      assert s == [s[0]] + s[1..];
      Insert(s[0], SortNewestFirst(s[1..]))
  }
}
