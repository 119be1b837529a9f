/**
 * How the map viewer reads what the logger writes: a day file named by the
 * logger is picked up as a log file, its name yields the day's 8-digit date,
 * the date filter keeps it exactly when that day lies within the bounds, and
 * the viewer's fixed columns for header-less files are the logger's own
 * column order.
 */
module CrossFile {
  import opened Wrappers
  import opened Text
  import opened Digits
  import opened LoggerTypes
  import opened ViewerSpec

  /** No character of a logger file name is an `e`, so `sensor_log_` never occurs in one. */
  lemma LogFileNameHasNoE(d: CalendarDate)
    ensures 'e' !in LogFileName(d)
  {
    var name, ds := LogFileName(d), DateStamp(d);
    assert name == LogFilePrefix + ds + CsvSuffix;
    forall i | 0 <= i < |name|
      ensures name[i] != 'e'
    {
      if i < |LogFilePrefix| {
        assert name[i] == LogFilePrefix[i];
      } else if i < |LogFilePrefix| + |ds| {
        assert name[i] == ds[i - |LogFilePrefix|];
      } else {
        assert name[i] == CsvSuffix[i - |LogFilePrefix| - |ds|];
      }
    }
  }

  /** The viewer's date extraction recovers the stamp the logger put into the name. */
  lemma LogFileNameDate(d: CalendarDate)
    ensures DateString(LogFileName(d)) == Some(DateStamp(d))
  {
    var name, ds := LogFileName(d), DateStamp(d);
    assert name == DbusLogPrefix + (ds + CsvExtension);
    LogFileNameHasNoE(d);
    if Contains(name, SensorLogPrefix) {
      ContainsNeedsChar(name, SensorLogPrefix, 1);
      assert false;
    }
    PrefixContains(name, DbusLogPrefix);
    RemoveAllLeading(DbusLogPrefix, ds + CsvExtension);
    forall i | 0 <= i < |ds + CsvExtension|
      ensures (ds + CsvExtension)[i] != 'd'
    {
      if i < |ds| {
        assert (ds + CsvExtension)[i] == ds[i];
      }
    }
    RemoveAllAbsent(ds + CsvExtension, DbusLogPrefix);
    assert forall i :: 0 <= i < |ds| ==> ds[i] != '.';
    RemoveAllFront(ds, CsvExtension, CsvExtension);
    RemoveAllLeading(CsvExtension, []);
    assert CsvExtension + [] == CsvExtension;
    assert ds + [] == ds;
  }

  /** A day file in any directory passes the loader's log-file filter. */
  lemma LogFileSelected(dir: string, d: CalendarDate)
    ensures IsLogCandidate(dir + "/" + LogFileName(d))
  {
    var name := LogFileName(d);
    BasenameOfJoin(dir, name);
    assert DbusLogTag <= name;
    PrefixContains(name, DbusLogTag);
  }

  /** The date filter keeps a day file exactly when its 8-digit stamp passes both bound tests. */
  lemma LogFileKeptIffWithinBounds(dir: string, d: CalendarDate, fromDate: string, toDate: string)
    ensures KeepByDate(dir + "/" + LogFileName(d), fromDate, toDate) <==> WithinBounds(DateStamp(d), fromDate, toDate)
  {
    BasenameOfJoin(dir, LogFileName(d));
    LogFileNameDate(d);
  }

  /**
   * With both bounds entered as the stamps of two days, the date filter keeps a
   * day file exactly when its day lies between them, both days included; an
   * empty bound imposes nothing.
   */
  lemma LogFileKeptIffBetweenDays(dir: string, d: CalendarDate, from: Option<CalendarDate>, to: Option<CalendarDate>)
    ensures var fromDate := if from.Some? then DateStamp(from.value) else [];
      var toDate := if to.Some? then DateStamp(to.value) else [];
      KeepByDate(dir + "/" + LogFileName(d), fromDate, toDate) <==>
        && (from.Some? ==> Ordinal(from.value) <= Ordinal(d))
        && (to.Some? ==> Ordinal(d) <= Ordinal(to.value))
  {
    var fromDate := if from.Some? then DateStamp(from.value) else [];
    var toDate := if to.Some? then DateStamp(to.value) else [];
    LogFileKeptIffWithinBounds(dir, d, fromDate, toDate);
    BoundsAreNumeric(DateStamp(d), fromDate, toDate);
  }

  /**
   * On a full-width row of a logger file, reading by the logger's header and
   * reading the fixed columns 0, 4, 5 and 6 give the same fields.
   */
  lemma LoggerRowsReadAlike(row: seq<string>)
    requires |row| == |Fieldnames()|
    ensures RowFields(true, Fieldnames(), row) == RowFields(false, [], row)
    ensures RowFields(false, [], row).Some?
  {
    var names := Fieldnames();
    assert forall i, j :: 0 <= i < j < |names| ==> names[i] != names[j];
    HeaderedFieldsByName(names, row, 0, 4, 5, 6);
  }
}
