/** The "Create Backup" dialog (frontend/src/components/BackupModal.tsx): its form state,
    the defaults it opens with, and `handleSubmit`, which turns the form into a backup
    configuration with an optional schedule. */
module BackupModal {
  import opened Wrappers
  import opened Text
  import opened BackupUtils

  /** The dialog's state. `day` is one text shared by the weekday and the day-of-month
      selectors; the cron input is not bound to any state. */
  datatype BackupForm = BackupForm(
    kind: BackupType,
    compress: bool,
    storageType: StorageType,
    storageLocation: string,
    scheduled: bool,
    frequency: Frequency,
    time: string,
    day: string)

  const DefaultBackupForm := BackupForm(Full, true, Local, "/backups", false, Daily, "00:00", "1")

  /** Weekly and monthly schedules carry a day; daily and custom ones do not. */
  predicate HasDay(f: Frequency) {
    f == Weekly || f == Monthly
  }

  /** `handleSubmit`: the four backup settings are copied; a schedule is attached only when
      scheduling is on, with the frequency and time, and with `parseInt(day)` for weekly
      and monthly schedules. */
  function Submit(form: BackupForm): (config: BackupConfig)
    ensures config.kind == form.kind && config.compress == form.compress
    ensures config.storageType == form.storageType
    ensures config.storageLocation == form.storageLocation
    ensures config.schedule.Some? <==> form.scheduled
    ensures config.schedule.Some? ==>
      && config.schedule.value.frequency == form.frequency
      && config.schedule.value.time == Some(form.time)
      && (config.schedule.value.day.Some? <==> HasDay(form.frequency))
      && config.schedule.value.customExpression.None?
    ensures config.schedule.Some? && HasDay(form.frequency) ==>
      config.schedule.value.day == Some(ParseInt(form.day))
  {
    var base := BackupConfig(form.kind, form.compress, form.storageType, form.storageLocation, None);
    if !form.scheduled then base
    else
      var day := if form.frequency == Weekly then Some(ParseInt(form.day))
                 else if form.frequency == Monthly then Some(ParseInt(form.day))
                 else None;
      base.(schedule := Some(Schedule(form.frequency, Some(form.time), day, None)))
  }

  /** Submitting the untouched dialog asks for a full, compressed, local, unscheduled
      backup into "/backups". */
  lemma DefaultSubmit()
    ensures Submit(DefaultBackupForm) == BackupConfig(Full, true, Local, "/backups", None)
  {
  }

  /** The option values of the weekday selector, "0" for Sunday to "6" for Saturday. */
  function WeekdayOptions(): (r: seq<string>)
    ensures |r| == 7
  {
    seq(7, (i: int) requires 0 <= i => NatToString(i))
  }

  /** The option values of the day-of-month selector, "1" to "31". */
  function MonthDayOptions(): (r: seq<string>)
    ensures |r| == 31
  {
    seq(31, (i: int) requires 0 <= i => NatToString(i + 1))
  }

  /** Every weekday option submits the day it names. */
  lemma WeekdayOptionsParse(form: BackupForm, i: nat)
    requires i < 7 && form.scheduled && form.frequency == Weekly
    requires form.day == WeekdayOptions()[i]
    ensures Submit(form).schedule.value.day == Some(Number(i))
  {
    ParseIntRoundTrip(i);
  }

  /** Every day-of-month option submits the day it names. */
  lemma MonthDayOptionsParse(form: BackupForm, i: nat)
    requires i < 31 && form.scheduled && form.frequency == Monthly
    requires form.day == MonthDayOptions()[i]
    ensures Submit(form).schedule.value.day == Some(Number(i + 1))
  {
    ParseIntRoundTrip(i + 1);
  }

  /** The day is not checked against the frequency: choosing day 31 of the month and then
      switching to a weekly schedule submits a weekly schedule on day 31. */
  lemma WeeklyScheduleCanCarryDay31(form: BackupForm)
    requires form.scheduled && form.frequency == Monthly && form.day == MonthDayOptions()[30]
    ensures var weekly := Submit(form.(frequency := Weekly)).schedule.value;
      weekly.frequency == Weekly && weekly.day == Some(Number(31))
      && !(0 <= weekly.day.value.value <= 6)
  {
    ParseIntRoundTrip(31);
  }

  /** A day the selectors offer is submitted as a number whose decimal text is the
      selected option again. */
  lemma SubmittedDayRoundTrip(form: BackupForm, i: nat)
    requires form.scheduled && HasDay(form.frequency)
    requires i <= 31 && form.day == NatToString(i)
    ensures var d := Submit(form).schedule.value.day.value;
      d.Number? && d.value >= 0 && NatToString(d.value) == form.day
  {
    ParseIntRoundTrip(i);
  }
}
