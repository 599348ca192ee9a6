/** The backup-run record, its configuration, and the human-readable size and duration
    renderings (frontend/src/utils/backupUtils.ts). */
module BackupUtils {
  import opened Wrappers
  import opened Text
  import opened DatabaseUtils

  // ---------------------------------------------------------------- records

  datatype BackupType = Full | Incremental | Differential
  datatype BackupStatus = Pending | InProgress | Completed | Failed
  datatype StorageType = Local | AwsS3 | GoogleCloud | AzureBlob
  datatype Frequency = Daily | Weekly | Monthly | Custom

  function BackupTypeName(t: BackupType): string {
    match t
    case Full => "full"
    case Incremental => "incremental"
    case Differential => "differential"
  }

  /** A recurring schedule; `day` holds whatever `parseInt` produced, NaN included. */
  datatype Schedule = Schedule(
    frequency: Frequency,
    time: Option<string>,
    day: Option<JsNumber>,
    customExpression: Option<string>)

  datatype BackupConfig = BackupConfig(
    kind: BackupType,
    compress: bool,
    storageType: StorageType,
    storageLocation: string,
    schedule: Option<Schedule>)

  datatype LogLevel = Info | Warning | Error

  datatype BackupLog = BackupLog(timestamp: int, level: LogLevel, message: string)

  /** One backup run. Times are milliseconds since the epoch; `size` is in bytes. */
  datatype Backup = Backup(
    id: string,
    connectionId: string,
    name: string,
    config: BackupConfig,
    status: BackupStatus,
    startTime: int,
    endTime: Option<int>,
    size: Option<int>,
    path: Option<string>,
    error: Option<string>,
    logs: seq<BackupLog>)

  predicate IsTerminal(s: BackupStatus) {
    s == Completed || s == Failed
  }

  // ---------------------------------------------------------------- formatFileSize

  function Pow1024(i: nat): (p: nat)
    ensures p >= 1
  {
    if i == 0 then 1 else 1024 * Pow1024(i - 1)
  }

  /** The unit exponent for a positive byte count: the largest `i` with 1024^i <= bytes. */
  function UnitIndex(bytes: nat): (i: nat)
    requires bytes >= 1
    ensures Pow1024(i) <= bytes < Pow1024(i + 1)
    decreases bytes
  {
    if bytes < 1024 then 0
    else
      var q := bytes / 1024;
      var j := UnitIndex(q);
      assert 1024 * q <= bytes < 1024 * q + 1024;
      assert 1024 * Pow1024(j) <= 1024 * q;
      assert 1024 * q + 1024 <= 1024 * Pow1024(j + 1);
      j + 1
  }

  /** `sizes[i]`; past the end of the five-entry table JavaScript yields `undefined`. */
  function UnitName(i: nat): string {
    if i < 5 then ["Bytes", "KB", "MB", "GB", "TB"][i] else "undefined"
  }

  /** `(bytes / unit).toFixed(2)` as a count of hundredths: the nearest integer to
      100 * bytes / unit, halves rounded up. The quotient is exact in binary floating
      point because `unit` is a power of two. */
  function RoundedHundredths(bytes: nat, unit: nat): (n: nat)
    requires unit >= 1
    ensures 2 * unit * n <= 200 * bytes + unit < 2 * unit * n + 2 * unit
  {
    (200 * bytes + unit) / (2 * unit)
  }

  /** The text `String(parseFloat(x.toFixed(2)))` for x = n / 100: the integer part and,
      only when non-zero, the fraction with trailing zeros dropped. */
  function RenderHundredths(n: nat): (r: string)
    ensures |r| >= 1
    ensures '.' in r ==> r[|r| - 1] != '0'
  {
    var whole := NatToString(n / 100);
    var frac := n % 100;
    if frac == 0 then whole
    else if frac % 10 == 0 then whole + "." + [DigitChar(frac / 10)]
    else whole + "." + [DigitChar(frac / 10), DigitChar(frac % 10)]
  }

  /** `formatFileSize(bytes)`. Negative input gives `Math.log` NaN, hence "NaN undefined". */
  function FormatFileSize(bytes: int): string {
    if bytes == 0 then "0 Bytes"
    else if bytes < 0 then "NaN undefined"
    else
      var i := UnitIndex(bytes);
      RenderHundredths(RoundedHundredths(bytes, Pow1024(i))) + " " + UnitName(i)
  }

  /** A strict reader for unsigned decimal numerals. */
  function ReadNat(s: string): Option<nat> {
    if |s| > 0 && AllRadixDigits(s, 10) then Some(DigitsValue(s, 10)) else None
  }

  /** A strict reader for decimal integers with an optional leading '-'. */
  function ReadInt(s: string): Option<int> {
    if |s| > 0 && s[0] == '-' then
      match ReadNat(s[1..])
      case Some(v) => Some(0 - v)
      case None => None
    else
      match ReadNat(s)
      case Some(v) => Some(v)
      case None => None
  }

  lemma ReadNatRoundTrip(n: nat)
    ensures ReadNat(NatToString(n)) == Some(n)
  {
    NatToStringRoundTrip(n);
  }

  lemma ReadIntRoundTrip(i: int)
    ensures ReadInt(IntToString(i)) == Some(i)
  {
    if i < 0 {
      ReadNatRoundTrip(-i);
      ReadNegative(NatToString(-i), -i);
    } else {
      ReadNatRoundTrip(i);
      var s := NatToString(i);
      assert IsDigit(s[0]);
      ReadUnsigned(s, i);
    }
  }

  lemma ReadNegative(t: string, v: nat)
    requires ReadNat(t) == Some(v)
    ensures ReadInt("-" + t) == Some(-(v as int))
  {
    assert ("-" + t)[1..] == t;
  }

  lemma ReadUnsigned(s: string, v: nat)
    requires ReadNat(s) == Some(v) && s[0] != '-'
    ensures ReadInt(s) == Some(v)
  {
  }

  /** Reads a decimal with at most two fraction digits back into hundredths. */
  function ReadHundredths(s: string): Option<nat> {
    var parts := Split(s, '.');
    if |parts| == 1 then
      match ReadNat(parts[0])
      case Some(w) => Some(100 * w)
      case None => None
    else if |parts| == 2 && 1 <= |parts[1]| <= 2 then
      match (ReadNat(parts[0]), ReadNat(parts[1]))
      case (Some(w), Some(f)) => Some(100 * w + (if |parts[1]| == 1 then 10 * f else f))
      case _ => None
    else None
  }

  lemma NoDotInNumeral(n: nat)
    ensures '.' !in NatToString(n)
  {
    var s := NatToString(n);
    forall i | 0 <= i < |s| ensures s[i] != '.' {
      assert IsDigit(s[i]);
    }
  }

  /** The rendered number reads back exactly: nothing is lost by dropping trailing zeros. */
  lemma RenderHundredthsRoundTrip(n: nat)
    ensures ReadHundredths(RenderHundredths(n)) == Some(n)
  {
    var w, frac := n / 100, n % 100;
    var whole := NatToString(w);
    NoDotInNumeral(w);
    ReadNatRoundTrip(w);
    if frac == 0 {
      ReadWholeText(whole, w);
    } else if frac % 10 == 0 {
      var d := DigitChar(frac / 10);
      ReadOneDigit(frac / 10);
      ReadDecimalText(whole, w, [d], frac / 10);
      assert RenderHundredths(n) == whole + ['.'] + [d];
    } else {
      var d1, d2 := DigitChar(frac / 10), DigitChar(frac % 10);
      ReadTwoDigits(frac / 10, frac % 10);
      ReadDecimalText(whole, w, [d1, d2], 10 * (frac / 10) + frac % 10);
      assert RenderHundredths(n) == whole + ['.'] + [d1, d2];
    }
  }

  lemma ReadWholeText(whole: string, w: nat)
    requires ReadNat(whole) == Some(w) && '.' !in whole
    ensures ReadHundredths(whole) == Some(100 * w)
  {
    SplitNoSeparator(whole, '.');
  }

  lemma ReadDecimalText(whole: string, w: nat, tail: string, f: nat)
    requires ReadNat(whole) == Some(w) && '.' !in whole
    requires ReadNat(tail) == Some(f) && '.' !in tail && 1 <= |tail| <= 2
    ensures ReadHundredths(whole + ['.'] + tail)
         == Some(100 * w + (if |tail| == 1 then 10 * f else f))
  {
    SplitAtSeparator(whole, tail, '.');
    SplitNoSeparator(tail, '.');
  }

  lemma ReadOneDigit(d: nat)
    requires d < 10
    ensures ReadNat([DigitChar(d)]) == Some(d)
  {
    var t := [DigitChar(d)];
    assert AllRadixDigits(t, 10);
    assert t[..0] == [];
    assert DigitsValue(t, 10) == DigitsValue(t[..0], 10) * 10 + AlnumValue(t[0]);
  }

  lemma ReadTwoDigits(d1: nat, d2: nat)
    requires d1 < 10 && d2 < 10
    ensures ReadNat([DigitChar(d1), DigitChar(d2)]) == Some(10 * d1 + d2)
  {
    var t := [DigitChar(d1), DigitChar(d2)];
    assert t[..1] == [DigitChar(d1)];
    ReadOneDigit(d1);
  }

  lemma NoSpaceInRendering(n: nat)
    ensures ' ' !in RenderHundredths(n)
  {
    var whole := NatToString(n / 100);
    forall i | 0 <= i < |whole| ensures whole[i] != ' ' {
      assert IsDigit(whole[i]);
    }
  }

  /** What the size text means: a number and a unit separated by one space, the unit
      chosen by the largest power of 1024 not above the size, and the number reading
      back to within half a hundredth of bytes / 1024^i. */
  lemma FileSizeMeaning(bytes: nat)
    requires bytes >= 1
    ensures var i := UnitIndex(bytes);
            var parts := Split(FormatFileSize(bytes), ' ');
            && Pow1024(i) <= bytes < Pow1024(i + 1)
            && |parts| == 2
            && parts[1] == UnitName(i)
            && ReadHundredths(parts[0]).Some?
            && var n := ReadHundredths(parts[0]).value;
               2 * Pow1024(i) * n <= 200 * bytes + Pow1024(i) < 2 * Pow1024(i) * n + 2 * Pow1024(i)
  {
    var i := UnitIndex(bytes);
    var n := RoundedHundredths(bytes, Pow1024(i));
    var text := RenderHundredths(n);
    NoSpaceInRendering(n);
    assert ' ' !in UnitName(i);
    SplitAtSeparator(text, UnitName(i), ' ');
    SplitNoSeparator(UnitName(i), ' ');
    assert text + " " + UnitName(i) == text + [' '] + UnitName(i);
    RenderHundredthsRoundTrip(n);
  }

  /** Below 1 KiB the exact byte count is printed with the unit "Bytes". */
  lemma FileSizeBelowKilobyte(bytes: nat)
    requires 1 <= bytes < 1024
    ensures FormatFileSize(bytes) == NatToString(bytes) + " Bytes"
  {
    assert UnitIndex(bytes) == 0 && Pow1024(0) == 1 && UnitName(0) == "Bytes";
    RoundedPerByte(bytes);
    RenderWholeNumber(bytes);
    assert FormatFileSize(bytes) == RenderHundredths(100 * bytes) + " " + "Bytes";
    BytesSuffix(NatToString(bytes));
  }

  lemma BytesSuffix(x: string)
    ensures x + " " + "Bytes" == x + " Bytes"
  {
  }

  lemma RoundedPerByte(bytes: nat)
    ensures RoundedHundredths(bytes, 1) == 100 * bytes
  {
    assert 200 * bytes + 1 == 2 * (100 * bytes) + 1;
  }

  /** A whole number of hundredths renders without a fraction. */
  lemma RenderWholeNumber(w: nat)
    ensures RenderHundredths(100 * w) == NatToString(w)
  {
    var n := 100 * w;
    assert n / 100 == w && n % 100 == 0;
  }

  /** Concrete renderings: zero, a fractional kilobyte with its trailing zero dropped,
      an exact gigabyte, and a count just under 1 MiB that rounds up to "1024 KB". */
  lemma FileSizeExamples()
    ensures FormatFileSize(0) == "0 Bytes"
    ensures FormatFileSize(1536) == "1.5 KB"
    ensures FormatFileSize(1073741824) == "1 GB"
    ensures FormatFileSize(1048575) == "1024 KB"
  {
    KilobyteExample();
    GigabyteExample();
    RoundsUpExample();
  }

  lemma KilobyteExample()
    ensures FormatFileSize(1536) == "1.5 KB"
  {
    assert UnitIndex(1536) == 1 by {
      assert 1536 / 1024 == 1;
      assert UnitIndex(1) == 0;
    }
    assert RoundedHundredths(1536, 1024) == 150;
    assert RenderHundredths(150) == "1.5" by {
      assert NatToString(1) == "1";
      assert DigitChar(5) == '5';
    }
  }

  lemma GigabyteExample()
    ensures FormatFileSize(1073741824) == "1 GB"
  {
    assert UnitIndex(1073741824) == 3 by {
      assert UnitIndex(1024) == 1;
      assert UnitIndex(1048576) == 2;
    }
    assert Pow1024(3) == 1073741824;
    assert RoundedHundredths(1073741824, 1073741824) == 100;
    RenderWholeNumber(1);
    assert NatToString(1) == "1";
  }

  lemma RoundsUpExample()
    ensures FormatFileSize(1048575) == "1024 KB"
  {
    assert UnitIndex(1048575) == 1 by {
      assert 1048575 / 1024 == 1023;
      assert UnitIndex(1023) == 0;
    }
    assert RoundedHundredths(1048575, 1024) == 102400;
    RenderWholeNumber(1024);
    Numeral1024();
  }

  lemma Numeral1024()
    ensures NatToString(1024) == "1024"
  {
    assert NatToString(10) == "10";
    assert NatToString(102) == NatToString(10) + [DigitChar(2)] == "102";
    assert NatToString(1024) == NatToString(102) + [DigitChar(4)];
  }

  // ---------------------------------------------------------------- formatDuration

  /** `${n} word` with an "s" unless the count is exactly one. */
  function Counted(n: nat, word: string): string {
    NatToString(n) + " " + word + (if n != 1 then "s" else "")
  }

  /** `formatDuration(seconds)`: "N seconds" below a minute (always plural), minutes and
      seconds below an hour, hours and minutes from an hour on. */
  function FormatDuration(seconds: int): string {
    if seconds < 60 then IntToString(seconds) + " seconds"
    else if seconds < 3600 then Counted(seconds / 60, "min") + " " + Counted(seconds % 60, "sec")
    else Counted(seconds / 3600, "hour") + " " + Counted((seconds % 3600) / 60, "min")
  }

  /** `word` is the unit `u`, singular or with the plural "s". */
  predicate IsUnit(word: string, u: string) {
    word == u || word == u + "s"
  }

  /** Reads a duration text back into seconds. */
  function ReadDuration(text: string): Option<int> {
    var w := Split(text, ' ');
    if |w| == 2 && w[1] == "seconds" then ReadInt(w[0])
    else if |w| == 4 && ReadNat(w[0]).Some? && ReadNat(w[2]).Some? then
      var a := ReadNat(w[0]).value;
      var b := ReadNat(w[2]).value;
      if IsUnit(w[1], "min") && IsUnit(w[3], "sec") then Some(60 * a + b)
      else if IsUnit(w[1], "hour") && IsUnit(w[3], "min") then Some(3600 * a + 60 * b)
      else None
    else None
  }

  lemma NoSpaceInNumeral(n: nat)
    ensures ' ' !in NatToString(n)
  {
    var s := NatToString(n);
    forall i | 0 <= i < |s| ensures s[i] != ' ' {
      assert IsDigit(s[i]);
    }
  }

  /** The unit word of a count is the singular exactly when the count is one. */
  lemma PluralWord(n: nat, u: string)
    ensures var word := u + (if n != 1 then "s" else "");
      IsUnit(word, u) && (word == u <==> n == 1)
  {
    var word := u + (if n != 1 then "s" else "");
    if n == 1 {
      assert word == u;
    } else {
      assert |word| == |u| + 1;
    }
  }

  /** The four words of a two-unit duration text. */
  lemma CountedPairWords(a: nat, u: string, b: nat, v: string)
    requires ' ' !in u && ' ' !in v
    ensures Split(Counted(a, u) + " " + Counted(b, v), ' ')
         == [NatToString(a), u + (if a != 1 then "s" else ""),
             NatToString(b), v + (if b != 1 then "s" else "")]
  {
    var x0, x1 := NatToString(a), u + (if a != 1 then "s" else "");
    var x2, x3 := NatToString(b), v + (if b != 1 then "s" else "");
    NoSpaceInNumeral(a);
    NoSpaceInNumeral(b);
    NoSpaceInWord(u, a);
    NoSpaceInWord(v, b);
    CountedShape(a, u);
    CountedShape(b, v);
    Regroup(x0, x1, x2, x3, ' ');
    SplitFourWords(x0, x1, x2, x3, ' ');
  }

  lemma CountedShape(n: nat, word: string)
    ensures Counted(n, word) == NatToString(n) + [' '] + (word + (if n != 1 then "s" else ""))
  {
  }

  lemma Regroup(x0: string, x1: string, x2: string, x3: string, sep: char)
    ensures (x0 + [sep] + x1) + [sep] + (x2 + [sep] + x3)
         == x0 + [sep] + (x1 + [sep] + (x2 + [sep] + x3))
  {
  }

  lemma NoSpaceInWord(u: string, n: nat)
    requires ' ' !in u
    ensures ' ' !in u + (if n != 1 then "s" else "")
  {
  }

  lemma SplitFourWords(x0: string, x1: string, x2: string, x3: string, sep: char)
    requires sep !in x0 && sep !in x1 && sep !in x2 && sep !in x3
    ensures Split(x0 + [sep] + (x1 + [sep] + (x2 + [sep] + x3)), sep) == [x0, x1, x2, x3]
  {
    SplitNoSeparator(x3, sep);
    SplitAtSeparator(x2, x3, sep);
    SplitAtSeparator(x1, x2 + [sep] + x3, sep);
    SplitAtSeparator(x0, x1 + [sep] + (x2 + [sep] + x3), sep);
  }

  /** Below a minute the text is the number and the always-plural "seconds". */
  lemma SecondsWords(seconds: int)
    requires seconds < 60
    ensures Split(FormatDuration(seconds), ' ') == [IntToString(seconds), "seconds"]
  {
    var s := IntToString(seconds);
    NoSpaceInInt(seconds);
    SplitPair(s, "seconds", ' ');
    assert FormatDuration(seconds) == s + [' '] + "seconds";
  }

  lemma NoSpaceInInt(i: int)
    ensures ' ' !in IntToString(i)
  {
    if i < 0 {
      NoSpaceInNumeral(-i);
    } else {
      NoSpaceInNumeral(i);
    }
  }

  /** Below an hour the text counts minutes and seconds, each singular exactly at one. */
  lemma MinutesWords(seconds: int)
    requires 60 <= seconds < 3600
    ensures var w := Split(FormatDuration(seconds), ' ');
      && |w| == 4 && w[0] == NatToString(seconds / 60) && w[2] == NatToString(seconds % 60)
      && IsUnit(w[1], "min") && (w[1] == "min" <==> seconds / 60 == 1)
      && IsUnit(w[3], "sec") && (w[3] == "sec" <==> seconds % 60 == 1)
  {
    CountedPairWords(seconds / 60, "min", seconds % 60, "sec");
    PluralWord(seconds / 60, "min");
    PluralWord(seconds % 60, "sec");
  }

  /** From an hour on the text counts hours and the minutes past them. */
  lemma HoursWords(seconds: int)
    requires 3600 <= seconds
    ensures var w := Split(FormatDuration(seconds), ' ');
      && |w| == 4 && w[0] == NatToString(seconds / 3600)
      && w[2] == NatToString((seconds % 3600) / 60)
      && IsUnit(w[1], "hour") && (w[1] == "hour" <==> seconds / 3600 == 1)
      && IsUnit(w[3], "min") && (w[3] == "min" <==> (seconds % 3600) / 60 == 1)
  {
    CountedPairWords(seconds / 3600, "hour", (seconds % 3600) / 60, "min");
    PluralWord(seconds / 3600, "hour");
    PluralWord((seconds % 3600) / 60, "min");
  }

  lemma ReadMinutes(seconds: int)
    requires 60 <= seconds < 3600
    ensures ReadDuration(FormatDuration(seconds)) == Some(seconds)
  {
    var w := Split(FormatDuration(seconds), ' ');
    MinutesWords(seconds);
    ReadNatRoundTrip(seconds / 60);
    ReadNatRoundTrip(seconds % 60);
    assert |w| != 2;
  }

  lemma ReadHours(seconds: int)
    requires 3600 <= seconds
    ensures ReadDuration(FormatDuration(seconds)) == Some(seconds - seconds % 60)
  {
    var w := Split(FormatDuration(seconds), ' ');
    HoursWords(seconds);
    ReadNatRoundTrip(seconds / 3600);
    ReadNatRoundTrip((seconds % 3600) / 60);
    HourIsNotMinute(w[1]);
    WholeMinutes(seconds);
  }

  lemma HourIsNotMinute(word: string)
    requires IsUnit(word, "hour")
    ensures !IsUnit(word, "min")
  {
    assert word[0] == 'h';
  }

  /** Whole hours and the whole minutes past them make the seconds down to the minute. */
  lemma WholeMinutes(seconds: nat)
    ensures 3600 * (seconds / 3600) + 60 * ((seconds % 3600) / 60) == seconds - seconds % 60
  {
    var h, rest := seconds / 3600, seconds % 3600;
    assert seconds == 3600 * h + rest;
    assert rest == 60 * (rest / 60) + rest % 60;
    assert seconds % 60 == rest % 60 by {
      assert seconds == 60 * (60 * h + rest / 60) + rest % 60;
    }
  }

  /** Reading a duration text back gives the seconds, except that from an hour on the
      seconds past the last whole minute are dropped. */
  lemma DurationRoundTrip(seconds: int)
    ensures ReadDuration(FormatDuration(seconds))
         == Some(if seconds < 3600 then seconds else seconds - seconds % 60)
  {
    if seconds < 60 {
      SecondsWords(seconds);
      ReadIntRoundTrip(seconds);
    } else if seconds < 3600 {
      ReadMinutes(seconds);
    } else {
      ReadHours(seconds);
    }
  }

  /** The examples of the documentation, including the always-plural "1 seconds". */
  lemma DurationExamples()
    ensures FormatDuration(1) == "1 seconds"
    ensures FormatDuration(45) == "45 seconds"
    ensures FormatDuration(125) == "2 mins 5 secs"
    ensures FormatDuration(3661) == "1 hour 1 min"
  {
    SecondsExamples();
    MinutesExample();
    HourExample();
  }

  lemma SecondsExamples()
    ensures FormatDuration(1) == "1 seconds"
    ensures FormatDuration(45) == "45 seconds"
  {
    assert IntToString(1) == [DigitChar(1)] == "1";
    assert NatToString(4) == "4";
    assert IntToString(45) == NatToString(4) + [DigitChar(5)] == "45";
  }

  lemma MinutesExample()
    ensures FormatDuration(125) == "2 mins 5 secs"
  {
    assert 125 / 60 == 2 && 125 % 60 == 5;
    assert NatToString(2) == "2";
    assert NatToString(5) == "5";
  }

  lemma HourExample()
    ensures FormatDuration(3661) == "1 hour 1 min"
  {
    assert 3661 / 3600 == 1 && (3661 % 3600) / 60 == 1;
    assert NatToString(1) == "1";
  }

  // ---------------------------------------------------------------- createBackup

  /** Everything `createBackup` draws from randomness and the clock: the id, the ISO time
      text used in the name, the timestamps of its log entries and of the end, whether the
      run fails (10% in the mock), and the size of a successful dump. */
  datatype RunInputs = RunInputs(
    id: string,
    isoNow: string,
    startTime: int,
    startLogTime: int,
    endTime: int,
    errorLogTime: int,
    failed: bool,
    size: int)

  datatype CreateResult = CreateResult(success: bool, backup: Backup, message: string)

  const StartMessage := "Starting backup process..."
  const FailureMessage := "Failed to create backup. Database server connection lost."
  const SuccessMessage := "Backup created successfully!"

  /** "Backup_<connection name>_<ISO time with ':' replaced by '-'>". */
  function BackupName(connectionName: string, isoNow: string): (name: string)
    ensures ':' in name ==> ':' in connectionName
  {
    var stamp := ReplaceChar(isoNow, ':', '-');
    assert ':' !in stamp by {
      forall i | 0 <= i < |stamp| ensures stamp[i] != ':' { }
    }
    "Backup_" + connectionName + "_" + stamp
  }

  /** The record as `createBackup` first builds it, before the simulated work. */
  function StartBackup(c: DatabaseConnection, config: BackupConfig, inputs: RunInputs): (b: Backup)
    ensures b.status == InProgress && b.connectionId == c.id && b.config == config
    ensures b.logs == [BackupLog(inputs.startLogTime, Info, StartMessage)]
    ensures b.endTime.None? && b.size.None? && b.path.None? && b.error.None?
  {
    Backup(inputs.id, c.id, BackupName(c.name, inputs.isoNow), config, InProgress,
           inputs.startTime, None, None, None, None,
           [BackupLog(inputs.startLogTime, Info, StartMessage)])
  }

  /** `createBackup(connection, config)` with its random outcome and clock readings given. */
  function CreateBackup(c: DatabaseConnection, config: BackupConfig, inputs: RunInputs): (r: CreateResult)
    ensures var start := StartBackup(c, config, inputs);
      && IsTerminal(r.backup.status)
      && (r.success <==> r.backup.status == Completed)
      && (r.backup.status == Failed <==> inputs.failed)
      && r.backup.id == start.id && r.backup.name == start.name
      && r.backup.connectionId == c.id && r.backup.config == config
      && r.backup.startTime == inputs.startTime
      && r.backup.endTime == Some(inputs.endTime)
      && |r.backup.logs| > 1 && r.backup.logs[..1] == start.logs
    ensures inputs.failed ==>
      && r.backup.error == Some(FailureMessage)
      && r.backup.logs[|r.backup.logs| - 1] == BackupLog(inputs.errorLogTime, LogLevel.Error, FailureMessage)
      && r.message == FailureMessage
      && r.backup.size.None? && r.backup.path.None?
    ensures !inputs.failed ==>
      && r.backup.error.None?
      && r.backup.size == Some(inputs.size)
      && r.backup.path == Some("/backups/" + r.backup.name + (if config.compress then ".gz" else ".sql"))
      && |r.backup.logs| == 5
      && (forall k :: 0 <= k < 5 ==> r.backup.logs[k].level == Info)
      && r.backup.logs[4] == BackupLog(inputs.endTime, Info,
           "Backup completed successfully. Size: " + FormatFileSize(inputs.size))
      && r.message == SuccessMessage
  {
    var b := StartBackup(c, config, inputs);
    if inputs.failed then
      CreateResult(false, FailedBackup(b, inputs), FailureMessage)
    else
      CreateResult(true, CompletedBackup(b, c, config, inputs), SuccessMessage)
  }

  /** The started backup marked failed, with the error entry appended to its log. */
  function FailedBackup(b: Backup, inputs: RunInputs): (r: Backup)
    ensures r == b.(status := Failed, endTime := Some(inputs.endTime),
                    error := Some(FailureMessage), logs := r.logs)
    ensures r.logs == b.logs + [BackupLog(inputs.errorLogTime, LogLevel.Error, FailureMessage)]
  {
    b.(status := Failed, endTime := Some(inputs.endTime), error := Some(FailureMessage),
       logs := b.logs + [BackupLog(inputs.errorLogTime, LogLevel.Error, FailureMessage)])
  }

  /** The started backup marked completed, with its size, its path and four more
      informational log entries. */
  function CompletedBackup(b: Backup, c: DatabaseConnection, config: BackupConfig,
                           inputs: RunInputs): (r: Backup)
    requires |b.logs| == 1 && b.logs[0].level == Info
    ensures r == b.(status := Completed, endTime := Some(inputs.endTime),
                    size := Some(inputs.size), path := r.path, logs := r.logs)
    ensures r.path == Some("/backups/" + b.name + (if config.compress then ".gz" else ".sql"))
    ensures |r.logs| == 5 && r.logs[..1] == b.logs
    ensures forall k :: 0 <= k < 5 ==> r.logs[k].level == Info
    ensures r.logs[4] == BackupLog(inputs.endTime, Info,
              "Backup completed successfully. Size: " + FormatFileSize(inputs.size))
  {
    var logs := b.logs + [
      BackupLog(inputs.startTime + 1000, Info,
        "Connected to " + TypeName(c.dbType) + " database at " + c.host + ":" + NumberText(c.port)),
      BackupLog(inputs.startTime + 2000, Info,
        "Starting " + BackupTypeName(config.kind) + " backup of database " + c.database),
      BackupLog(inputs.startTime + 3000, Info,
        if config.compress then "Compressing backup data..." else "Skipping compression as per configuration"),
      BackupLog(inputs.endTime, Info, "Backup completed successfully. Size: " + FormatFileSize(inputs.size))];
    assert logs[..1] == b.logs;
    b.(status := Completed, endTime := Some(inputs.endTime), size := Some(inputs.size),
       path := Some("/backups/" + b.name + (if config.compress then ".gz" else ".sql")),
       logs := logs)
  }


  /** A completed run's file ends in ".gz" exactly when compression was requested. */
  lemma CompletedPathExtension(c: DatabaseConnection, config: BackupConfig, inputs: RunInputs)
    requires !inputs.failed
    ensures var p := CreateBackup(c, config, inputs).backup.path.value;
            (EndsWith(p, ".gz") <==> config.compress) && (EndsWith(p, ".sql") <==> !config.compress)
  {
    var r := CreateBackup(c, config, inputs);
    var p := r.backup.path.value;
    var stem := "/backups/" + r.backup.name;
    if config.compress {
      assert p == stem + ".gz";
      assert p[|p| - 3..] == ".gz";
      assert p[|p| - 1] == 'z';
    } else {
      assert p == stem + ".sql";
      assert p[|p| - 4..] == ".sql";
      assert p[|p| - 1] == 'l';
    }
  }

  /** `restoreBackup(connection, backup)` with its random outcome (15% failure) given. */
  function RestoreBackup(failed: bool): (r: (bool, string))
    ensures r.0 <==> !failed
  {
    if failed then (false, "Failed to restore backup. Database server error.")
    else (true, "Backup restored successfully!")
  }
}
