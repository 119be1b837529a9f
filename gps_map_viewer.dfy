/**
 * The loading side of the `GPSMapViewer` class of gps_map_viewer.py: the
 * position list and key set it fills, the date filter over file names, the
 * per-file row loop and the loading thread's body. The Tk widgets, the thread
 * and the progress messages are left out; the globbed paths, the date entry
 * texts, the readable files' contents and Python's float parsing and rounding
 * are parameters. Each method is proved to do what the matching function of
 * ViewerSpec says, so the invariant proved there holds of the object.
 */
module GpsViewer {
  import opened Wrappers
  import opened Text
  import opened Digits
  import opened ViewerSpec

  class GPSMapViewer {
    var gpsPositions: seq<Position>
    var uniquePositions: set<Key>

    /** The object's positions and keys as a Track value. */
    function Current(): Track
      reads this
    {
      Track(gpsPositions, uniquePositions)
    }

    /** `__init__`, as far as the loaded data goes: no positions and no keys. */
    constructor ()
      ensures Current() == EmptyTrack
    {
      gpsPositions := [];
      uniquePositions := {};
    }

    /** `_filter_files_by_date`: the files whose name carries an 8-digit date within the bounds. */
    method FilterFilesByDate(csvFiles: seq<string>, fromDate: string, toDate: string) returns (filteredFiles: seq<string>)
      ensures filteredFiles == FilterByDate(csvFiles, fromDate, toDate)
    {
      filteredFiles := [];
      var i := 0;
      while i < |csvFiles|
        invariant 0 <= i <= |csvFiles|
        invariant filteredFiles == FilterByDate(csvFiles[..i], fromDate, toDate)
      {
        var csvFile := csvFiles[i];
        var filename := Basename(csvFile);
        var dateStr: Option<string> := None;
        if Contains(filename, SensorLogPrefix) {
          dateStr := Some(RemoveAll(RemoveAll(filename, SensorLogPrefix), CsvExtension));
        } else if Contains(filename, DbusLogPrefix) {
          dateStr := Some(RemoveAll(RemoveAll(filename, DbusLogPrefix), CsvExtension));
        }
        if dateStr.Some? && |dateStr.value| == 8 && AllDigits(dateStr.value) {
          var ds := dateStr.value;
          if fromDate != [] && LexLess(ds, fromDate) {
          } else if toDate != [] && LexLess(toDate, ds) {
          } else {
            filteredFiles := filteredFiles + [csvFile];
          }
        }
        assert csvFiles[..i + 1][..i] == csvFiles[..i];
        i := i + 1;
      }
      assert csvFiles[..i] == csvFiles;
    }

    /**
     * `_process_csv_file`: a file that cannot be read (None) changes nothing;
     * otherwise every row is checked and its position kept when its rounded
     * key is new.
     */
    method ProcessCsvFile(file: Option<CsvFile>, ops: FloatOps)
      modifies this
      ensures Current() == ScanFile(old(Current()), file, ops)
      ensures Consistent(old(Current()), ops) ==> Consistent(Current(), ops)
    {
      if Consistent(Current(), ops) {
        ScanFileKeepsConsistent(Current(), file, ops);
      }
      if file.None? {
        return;
      }
      var hasHeader := file.value.hasHeader;
      var fieldnames: seq<string> := [];
      var rows := file.value.rows;
      if hasHeader {
        if rows == [] {
          return;
        }
        fieldnames := rows[0];
        rows := rows[1..];
      }
      ghost var start := Current();
      var i := 0;
      while i < |rows|
        invariant 0 <= i <= |rows|
        invariant Current() == ScanRows(start, hasHeader, fieldnames, rows[..i], ops)
      {
        ProcessRow(RowFields(hasHeader, fieldnames, rows[i]), ops);
        assert rows[..i + 1][..i] == rows[..i];
        i := i + 1;
      }
      assert rows[..i] == rows;
    }

    /** The body of the row loop, given the fields the row yields (None: the row is skipped). */
    method ProcessRow(fields: Option<RawFields>, ops: FloatOps)
      modifies this
      ensures Current() == AdmitFields(old(Current()), fields, ops)
    {
      if fields.None? {
        return;
      }
      var lat, lon := fields.value.lat, fields.value.lon;
      if lat != [] && lon != [] && lat != NoneText && lon != NoneText {
        var latFloat, lonFloat := ops.parse(lat), ops.parse(lon);
        if latFloat.Some? && lonFloat.Some? {
          if -90.0 <= latFloat.value <= 90.0 && -180.0 <= lonFloat.value <= 180.0 {
            var positionKey := (ops.round4(latFloat.value), ops.round4(lonFloat.value));
            if positionKey !in uniquePositions {
              uniquePositions := uniquePositions + {positionKey};
              var speed := fields.value.speed;
              var speedFloat: Option<real> := None;
              if speed != [] && speed != NoneText {
                speedFloat := ops.parse(speed);
              }
              gpsPositions := gpsPositions + [Position(latFloat.value, lonFloat.value, fields.value.timestamp, speedFloat)];
            }
          }
        }
      }
    }

    /**
     * `_load_gps_data_thread`: with no log file among the globbed paths it
     * reports the error and changes nothing; otherwise it filters by date when
     * a bound is given, resets the data and processes the files in order.
     * `contents` holds the files that can be read.
     */
    method LoadGpsDataThread(globbed: seq<string>, fromText: string, toText: string,
                             contents: map<string, CsvFile>, ops: FloatOps) returns (found: bool)
      modifies this
      ensures found <==> SelectLogFiles(globbed) != []
      ensures !found ==> Current() == old(Current())
      ensures found ==> Current() == LoadResult(globbed, fromText, toText, contents, ops)
      ensures found ==> Consistent(Current(), ops)
    {
      var csvFiles := SelectLogFiles(globbed);
      if csvFiles == [] {
        return false;
      }
      var fromDate, toDate := Strip(fromText), Strip(toText);
      if fromDate != [] || toDate != [] {
        csvFiles := FilterFilesByDate(csvFiles, fromDate, toDate);
      }
      assert csvFiles == LoadedFiles(globbed, fromText, toText);
      gpsPositions := [];
      uniquePositions := {};
      ProcessFiles(csvFiles, contents, ops);
      LoadResultConsistent(globbed, fromText, toText, contents, ops);
      return true;
    }

    /** The file loop of `_load_gps_data_thread`: process each file in order. */
    method ProcessFiles(csvFiles: seq<string>, contents: map<string, CsvFile>, ops: FloatOps)
      modifies this
      ensures Current() == ScanFiles(old(Current()), csvFiles, contents, ops)
    {
      ghost var start := Current();
      var i := 0;
      while i < |csvFiles|
        invariant 0 <= i <= |csvFiles|
        invariant Current() == ScanFiles(start, csvFiles[..i], contents, ops)
      {
        ProcessCsvFile(Contents(contents, csvFiles[i]), ops);
        assert csvFiles[..i + 1][..i] == csvFiles[..i];
        i := i + 1;
      }
      assert csvFiles[..i] == csvFiles;
    }
  }
}
