# VenusOS D-Bus logger and GPS map viewer, modelled in Dafny

This project models two cooperating parts of a boat-monitoring system.

- **The D-Bus logger** (`DbusLogger` in `dbus-logger.py`) keeps a cache of sensor readings.
  - It reads battery state of charge, voltage and current, and GPS latitude, longitude and speed.
  - The cache is primed from the bus and refreshed when a device appears or a value changes.
  - A worker loop samples the cache into a bounded deque: whenever the cache is dirty, or `max_log_interval` seconds have passed since the last sample.
  - The worker writes the buffered records to a per-day CSV file `dbus_log_YYYYMMDD.csv`. It writes when the buffer reaches `buffer_size` records or when a sample was due.
  - On shutdown it writes one last time and deletes log files older than 30 days.
- **The GPS map viewer's loader** (`GPSMapViewer` in `LogBookViewerGUI/gps_map_viewer.py`) reads those files back.
  - It globs the CSV files of a directory and keeps those whose name mentions `sensor_log` or `dbus_log`.
  - It optionally filters them by the 8-digit date in their name.
  - For each file it reads the rows, either by header name or by fixed column.
  - It keeps every row whose coordinates parse and are in range, unless their position rounded to four decimals was already seen.

Layout:

- `wrappers.dfy`: `Option` and `Result`.
- `text.dfy`: the Python string operations the code relies on.
  - `in` on strings and `str.replace` (every occurrence).
  - String `<`, `str.strip`, `str.split` / `str.join` and `os.path.basename`.
- `digits.dfy`: 8-digit date strings. It proves that their string order is their numeric order.
- `logger_types.dfy`: the monitor list, the CSV field names, constructor validation, the date stamp and the file names.
- `logger_spec.dfy`: one pure function per logger operation over a `LoggerState` value, and the lemmas about them.
- `dbus_logger.dfy`: the class `DbusLogger`.
  - Its fields are the ones the Python object updates.
  - Each state-changing method ensures `Current() == <spec function>(old(Current()), ...)`, so the lemmas of `LoggerSpec` hold of the object.
  - Every public method keeps the class invariant `Valid()`:
    - the configuration is valid;
    - the deque holds at most `2 * buffer_size` records, each with exactly the CSV's fields;
    - the cache holds only configured codes.
- `viewer_spec.dfy`: the viewer's file selection, date filter, DictReader row lookup, row validation and de-duplication, as functions with lemmas.
- `gps_map_viewer.dfy`: the class `GPSMapViewer` with its two lists.
  - Its loops (the date filter, the file loop, the row loop) are proved against the `ViewerSpec` functions.
- `cross_file.dfy`: what holds between the two programs.
  - A file the logger writes is selected by the viewer.
  - Its date is recovered from its name.
  - It is kept exactly when its day lies within the entered bounds.
  - Reading its rows by header gives the same fields as reading them by column.

Behaviour of the code worth knowing:

- A failed write clears the buffer only when it holds more than five times `buffer_size` records. Because the deque's `maxlen` is `2 * buffer_size`, that branch cannot run (`LoggerSpec.FailedWriteKeepsBuffer`).
- The worker's elapsed-time test measures from the last *sample*, not from the last write.
- A missing value is written as `nan`, not as an empty field.
- A negative `buffer_size` makes `deque(maxlen=...)` raise in the constructor. It is modelled as the configuration error `NegativeBufferSize`.

## Model

| member | source | states |
|---|---|---|
| LoggerTypes.CheckConfig | dbus-logger.py:39-52 | construction fails exactly when an interval rule is broken or the buffer size is negative, reporting the first rule broken in the constructor's order |
| DbusLog.DbusLogger.Create | dbus-logger.py:39-52 | returns an error exactly when the configuration is rejected; otherwise an object holding that configuration, an empty buffer and cache, `last_log_time` 0 and the flag clear |
| DbusLog.DbusLogger.constructor | dbus-logger.py:47-95 | the fresh object: empty deque, empty cache, running, no sample taken yet, the log directory as given |
| LoggerTypes.Codes | dbus-logger.py:61-72 | the six sensor codes of the monitor list, in its order |
| LoggerTypes.CodeSet | dbus-logger.py:61-72 | the set of configured codes never contains `timestamp` |
| LoggerTypes.CodeSetContents | dbus-logger.py:61-72 | the configured codes are exactly soc, voltage, current, gps_lat, gps_lon and gps_speed |
| LoggerTypes.Tagged | dbus-logger.py:143-144 | walking one class's paths yields one entry per path, in order, carrying that class, path and code |
| LoggerTypes.FlattenPair | dbus-logger.py:143-144 | walking two classes yields the first class's entries followed by the second's |
| LoggerTypes.FlattenMonitorList | dbus-logger.py:61-72 | the nested monitor list walks to the six (class, path, code) entries in declaration order |
| LoggerTypes.MonitoredCodes | dbus-logger.py:61-72 | the codes of the monitored entries are the configured codes, each occurring once |
| LoggerTypes.EntryCodes | dbus-logger.py:246-249 | when entries carry a list of codes position by position, the set of their codes is the set of that list |
| LoggerTypes.Fieldnames | dbus-logger.py:306-310 | the CSV header: `timestamp` followed by the six codes in monitor-list order |
| LoggerTypes.PathsOf | dbus-logger.py:193 | each monitored class gets exactly the paths the monitor list gives it, with distinct codes that are all configured; any other class gets none |
| LoggerTypes.ServiceClass | dbus-logger.py:186-190 | the class is a prefix of the service name: its first three dot-separated parts, or the whole name when it has fewer |
| LoggerTypes.DateStamp | dbus-logger.py:296 | `%Y%m%d` of a calendar date is 8 digits whose decimal value is year*10000 + month*100 + day, the date's ordinal |
| LoggerTypes.LogFileName | dbus-logger.py:296 | the day's file name has no directory part and matches the retention pattern (prefix `dbus_log_`, suffix `.csv`) (with dbus-logger.py line 36) |
| LoggerSpec.FirstValue | dbus-logger.py:148-152 | the first non-None value among the class's services, in list order; None only when every service has None |
| DbusLog.DbusLogger.FirstServiceValue | dbus-logger.py:148-152 | the service loop with its early `break` returns exactly `FirstValue` |
| LoggerSpec.PrimeAllKeys | dbus-logger.py:143-157 | priming adds exactly the entries' codes to the cache and leaves every other key untouched |
| LoggerSpec.PrimeAllValue | dbus-logger.py:143-157 | when the entries' codes are distinct, after priming each entry's code holds the first bus value for its path, stamped with the priming time |
| LoggerSpec.PrimedCacheContents | dbus-logger.py:133-162 | after `_initialize_sensor_cache` the cache has every configured code, each holding the first value found on the bus, and the dirty flag is set |
| LoggerSpec.PrimeKeepsConfigured | dbus-logger.py:143-160 | priming stores only configured codes, so a cache of configured codes stays one, and the buffer is untouched |
| DbusLog.DbusLogger.InitializeSensorCache | dbus-logger.py:133-162 | without a monitor nothing changes; otherwise the object becomes `PrimeCache` of its old state |
| DbusLog.DbusLogger.PrimeSpecs | dbus-logger.py:143-157 | the class loop leaves the cache primed with every entry of the given classes, in order |
| DbusLog.DbusLogger.PrimePaths | dbus-logger.py:144-157 | the path loop of one class leaves the cache primed with that class's entries |
| LoggerSpec.RefreshPathsFacts | dbus-logger.py:195-205 | every path whose service value is not None ends with that value stamped now under its code (unless a later path shares the code); an entry changes only to the non-None value some path of that code reported, stamped now; no entry is dropped; the flag ends set iff it was set or some path had a value |
| LoggerSpec.UnknownServiceChangesNothing | dbus-logger.py:186-193 | a service of an unmonitored class leaves the state unchanged |
| LoggerSpec.UpdateFromServiceFacts | dbus-logger.py:181-207 | every path of the service's class with a non-None value puts that value, stamped now, under its code; nothing else in the cache changes except to such a value; buffer, last log time and files are untouched; the flag is set iff it was or some value was found; a cache of configured codes stays one |
| DbusLog.DbusLogger.UpdateCacheFromService | dbus-logger.py:181-207 | without a monitor nothing changes; otherwise the object becomes `UpdateFromService` of its old state |
| DbusLog.DbusLogger.RefreshFromService | dbus-logger.py:195-205 | the path loop yields the cache and flag of `RefreshPaths` |
| DbusLog.DbusLogger.OnDeviceAdded | dbus-logger.py:165-172 | a device arriving updates the cache from that service and nothing else |
| LoggerSpec.LatestChangeWins | dbus-logger.py:210-232 | two changes of the same code in a row leave only the second value, whatever the first was |
| LoggerSpec.ValueChangeKeepsConfigured | dbus-logger.py:216-228 | a change carrying a configured code (as every monitor-list entry does) keeps a cache of configured codes one and touches neither the buffer nor the files |
| DbusLog.DbusLogger.OnValueChanged | dbus-logger.py:210-232 | given options from the monitor list (so any code is a configured one): a change without `Value`, or with an empty or missing code, is ignored; otherwise that code takes the new value stamped now and the cache becomes dirty; `Valid()` is kept |
| LoggerSpec.ComposeRecord | dbus-logger.py:234-256 | the record has the timestamp, every cached code and every configured code; a cached value is copied, with None and configured-but-uncached codes written as the no-value marker |
| LoggerSpec.ComposedRecordWellFormed | dbus-logger.py:234-256 | from a cache of configured codes the record has exactly the CSV's fields, so the CSV writer accepts it (with dbus-logger.py lines 306-311) |
| DbusLog.DbusLogger.GetSensorData | dbus-logger.py:234-256 | the method's record is `ComposeRecord` of the cache |
| DbusLog.DbusLogger.AddMissing | dbus-logger.py:252-254 | adding the expected sensors keeps every existing field and adds the missing ones as the no-value marker |
| LoggerSpec.DequeAppend | dbus-logger.py:270 | appending to a bounded deque: the record always ends up last; below `maxlen` nothing is lost; at `maxlen` the oldest is dropped; the length never exceeds `maxlen` (with dbus-logger.py line 52) |
| LoggerSpec.DequeAppendMembers | dbus-logger.py:270 | every record in the deque after an append was either already in it or is the new one (with dbus-logger.py line 52) |
| LoggerSpec.RowOfRoundTrip | dbus-logger.py:306-317 | writing a well-formed record loses nothing: no cell is blank, the first is its timestamp, and pairing the header with the row gives the record back |
| LoggerSpec.RowLines | dbus-logger.py:317 | `writerows` writes one line per buffered record, in buffer order |
| LoggerSpec.WriteAppendsOnly | dbus-logger.py:287-325 | a successful write clears the buffer and appends one row per buffered record to the day's file (header first when the file is new), keeps the file's old lines as a prefix, keeps a well-formed log well-formed and changes no other file |
| LoggerSpec.FailedWriteKeepsBuffer | dbus-logger.py:326-331 | because the deque holds at most `2 * buffer_size` records, a failed write keeps the buffer and the files as they are: the 5x branch is unreachable (with dbus-logger.py line 52) |
| DbusLog.DbusLogger.WriteBufferToDisk | dbus-logger.py:287-331 | the object becomes `WriteBuffer` of its old state with the write's outcome |
| LoggerSpec.RetentionByAge | dbus-logger.py:333-344 | a file is deleted exactly when its name matches the log pattern and it is older than `days_to_keep` days; surviving files are unchanged and nothing else in the state changes |
| DbusLog.DbusLogger.CleanupOldLogs | dbus-logger.py:333-344 | the object becomes `CleanupLogs` of its old state |
| LoggerSpec.TickDecision | dbus-logger.py:258-285 | an iteration samples iff the cache is dirty or `max_log_interval` has passed since the last sample; a sample clears the flag, records the time and leaves the cache alone; it then either keeps the record buffered, writes it out with the rest, or after a failed write keeps everything buffered; a non-sampling iteration changes nothing |
| LoggerSpec.AppendKeepsWellFormed | dbus-logger.py:270 | appending a well-formed record to a deque of well-formed records keeps every record well formed |
| LoggerSpec.WriteKeepsBufferInvariant | dbus-logger.py:287-331 | a write attempt keeps the deque within its bound with only well-formed records, and does not touch the cache |
| LoggerSpec.TickKeepsBufferInvariant | dbus-logger.py:258-285 | one iteration keeps the deque within `2 * buffer_size` with only well-formed records, and does not touch the cache |
| LoggerSpec.RunKeepsBufferInvariant | dbus-logger.py:258-285 | over any sequence of iterations, whatever the clock and the write outcomes, the buffer never exceeds `2 * buffer_size` records and each has exactly the CSV fields (with dbus-logger.py line 52); the object's `Valid()` carries this through every public method |
| DbusLog.DbusLogger.Tick | dbus-logger.py:260-285 | one loop iteration: the object becomes `TickStep` of its old state |
| DbusLog.DbusLogger.LogWorker | dbus-logger.py:258-285 | while running, the worker applies its iterations in order; when stopped, it does nothing |
| LoggerSpec.StopKeepsFinalWrite | dbus-logger.py:346-356 | a successful final write is not undone by the retention pass that follows: the day's file holds the flushed rows and the buffer is empty |
| DbusLog.DbusLogger.Stop | dbus-logger.py:346-356 | stopping clears `running`, then the object becomes the final write followed by the 30-day cleanup |
| Text.RemoveAll | LogBookViewerGUI/gps_map_viewer.py:214-216 | `str.replace(pat, "")` removes every occurrence of the pattern, so the result is never longer than the input |
| Text.RemoveAllNotContained | LogBookViewerGUI/gps_map_viewer.py:214-216 | replacing a pattern that does not occur leaves the string as it is |
| Text.RemoveAllFront | LogBookViewerGUI/gps_map_viewer.py:214-216 | when the first part contains no character of the pattern, the replacement goes through it unchanged |
| Text.RemoveAllLeading | LogBookViewerGUI/gps_map_viewer.py:214-216 | a leading occurrence of the pattern is removed |
| Text.ContainsNeedsChar | LogBookViewerGUI/gps_map_viewer.py:213 | a string that lacks one of the pattern's characters does not contain the pattern |
| Text.PrefixContains | LogBookViewerGUI/gps_map_viewer.py:157 | a string contains each of its prefixes |
| Text.StripSlice | LogBookViewerGUI/gps_map_viewer.py:164-165 | `str.strip()` returns a slice of the text with no whitespace at either end and only whitespace before and after it |
| Text.TrimLeftDrops | LogBookViewerGUI/gps_map_viewer.py:164-165 | stripping the left end returns a suffix of the text that does not start with whitespace, and everything dropped is whitespace |
| Text.TrimRightDrops | LogBookViewerGUI/gps_map_viewer.py:164-165 | stripping the right end returns a prefix of the text that does not end in whitespace, and everything dropped is whitespace |
| Text.StripUntrimmed | LogBookViewerGUI/gps_map_viewer.py:164-165 | text without surrounding whitespace strips to itself |
| Text.SplitOn | dbus-logger.py:186 | `str.split('.')` yields at least one part, and no part contains the separator |
| Text.JoinSplit | dbus-logger.py:186-188 | joining the split parts with the separator gives the original string |
| Text.SplitJoin | dbus-logger.py:186-188 | splitting a join of separator-free parts gives those parts back |
| Text.JoinPrefix | dbus-logger.py:188 | joining the first `k` parts gives a prefix of the whole join |
| Text.BasenameAfterLastSlash | LogBookViewerGUI/gps_map_viewer.py:210 | `os.path.basename` is everything after the last `/`: a suffix of the path without `/`, preceded by a `/` whenever it is not the whole path (with LogBookViewerGUI/gps_map_viewer.py line 157) |
| Text.BasenameOfJoin | LogBookViewerGUI/gps_map_viewer.py:156-157 | the basename of `dir + "/" + name` is `name` when the name has no `/` |
| Text.SublistMembers | LogBookViewerGUI/gps_map_viewer.py:157 | an element of a subsequence is an element of the sequence |
| Text.SublistTrans | LogBookViewerGUI/gps_map_viewer.py:168 | filtering a filtered list still yields a subsequence of the original (with LogBookViewerGUI/gps_map_viewer.py line 157) |
| Digits.DigitValue | LogBookViewerGUI/gps_map_viewer.py:220 | an ASCII digit's value is below ten |
| Digits.DigitChar | dbus-logger.py:296 | a digit below ten is written as an ASCII digit of that value |
| Digits.ValueBound | LogBookViewerGUI/gps_map_viewer.py:220-224 | an n-digit string's value is below 10^n |
| Digits.ValueConcat | LogBookViewerGUI/gps_map_viewer.py:220-224 | the value of a concatenation is the first part's value shifted left by the second's length, plus the second's value |
| Digits.ValueFromFront | LogBookViewerGUI/gps_map_viewer.py:222-224 | a digit string's value is its first digit times 10^(n-1) plus the value of the rest |
| Digits.LexLessIsNumericLess | LogBookViewerGUI/gps_map_viewer.py:222-224 | for equal-length digit strings, Python's string `<` holds iff the numbers are in the same order |
| Digits.ZeroPadded | dbus-logger.py:296 | zero-padding a number yields digits of the requested width whose value is the number, when it fits |
| ViewerSpec.Filter | LogBookViewerGUI/gps_map_viewer.py:157 | a list comprehension with a condition keeps the order and keeps every element meeting the condition as many times as it occurs, and no other element |
| ViewerSpec.FilterByDateKeeps | LogBookViewerGUI/gps_map_viewer.py:205-230 | the date filter keeps files in order, each file whose name has an 8-digit date within both given bounds as many times as it occurs, and no other file |
| ViewerSpec.BoundsAreNumeric | LogBookViewerGUI/gps_map_viewer.py:220-224 | for 8-digit dates and bounds, the two string comparisons keep the days from `from_date` to `to_date` inclusive |
| GpsViewer.GPSMapViewer.FilterFilesByDate | LogBookViewerGUI/gps_map_viewer.py:205-230 | the loop's result is the date filter applied to the list |
| ViewerSpec.LoadedFilesChosen | LogBookViewerGUI/gps_map_viewer.py:156-168 | the files read keep glob order and are log files; with a non-empty stripped bound each has a date within it; with none, every log file is read, dated or not |
| ViewerSpec.ZipRowFacts | LogBookViewerGUI/gps_map_viewer.py:241 | DictReader's pairing of header and row: the keys are the names paired with a value, and each holds the value of the last column of that name |
| ViewerSpec.RestvalFacts | LogBookViewerGUI/gps_map_viewer.py:241 | a short row's unpaired names map to None; every other key keeps its value |
| ViewerSpec.GetMeaning | LogBookViewerGUI/gps_map_viewer.py:241 | `row.get(name)` is absent iff the header lacks the name, None iff some column of that name lies past the row's end, and otherwise the row's text at the last column of that name (with LogBookViewerGUI/gps_map_viewer.py lines 247-250) |
| ViewerSpec.GetUniqueName | LogBookViewerGUI/gps_map_viewer.py:247-250 | with distinct header names and a full row, looking up a name gives that name's column |
| ViewerSpec.HeaderedFieldsByName | LogBookViewerGUI/gps_map_viewer.py:245-250 | with a header naming each column once, a full-width row yields the stripped text of the `timestamp`, `gps_lat`, `gps_lon` and `gps_speed` columns |
| ViewerSpec.Candidate | LogBookViewerGUI/gps_map_viewer.py:262-268 | a row yields a point exactly when both coordinates are non-empty, not `None`, parse, and lie in [-90, 90] and [-180, 180]; the point carries the parsed values and the row's timestamp |
| ViewerSpec.KeysOfSnoc | LogBookViewerGUI/gps_map_viewer.py:275-276 | appending a position adds exactly its rounded key to the keys of the list |
| ViewerSpec.AdmitKeepsConsistent | LogBookViewerGUI/gps_map_viewer.py:269-291 | admitting an in-range point keeps the track consistent, only appends, adds its key, and changes nothing exactly when that key was already seen |
| ViewerSpec.AdmitFieldsKeepsConsistent | LogBookViewerGUI/gps_map_viewer.py:243-296 | processing one row keeps the track consistent and only adds positions and keys |
| ViewerSpec.ScanRowsKeepsConsistent | LogBookViewerGUI/gps_map_viewer.py:243-296 | processing a file's rows keeps the track consistent and only adds |
| ViewerSpec.ScanFileKeepsConsistent | LogBookViewerGUI/gps_map_viewer.py:232-298 | processing a file, readable or not, keeps the track consistent and only adds |
| ViewerSpec.ScanFilesKeepsConsistent | LogBookViewerGUI/gps_map_viewer.py:179-180 | processing the files in order keeps the track consistent and only adds |
| ViewerSpec.LoadResultConsistent | LogBookViewerGUI/gps_map_viewer.py:149-203 | after a load, no two kept positions share a rounded key, the key set is exactly their keys (so there are as many as positions), and every position is in range |
| GpsViewer.GPSMapViewer.constructor | LogBookViewerGUI/gps_map_viewer.py:35-36 | the viewer starts with no positions and no keys |
| GpsViewer.GPSMapViewer.ProcessRow | LogBookViewerGUI/gps_map_viewer.py:243-296 | the row body: a skipped row changes nothing; otherwise the point is admitted as `AdmitFields` says |
| GpsViewer.GPSMapViewer.ProcessCsvFile | LogBookViewerGUI/gps_map_viewer.py:232-298 | the object becomes `ScanFile` of its old track: an unreadable file changes nothing; a header is taken from the first row when sniffed; every row is processed in order; a consistent track stays consistent |
| GpsViewer.GPSMapViewer.ProcessFiles | LogBookViewerGUI/gps_map_viewer.py:179-189 | the file loop processes the files in order, as `ScanFiles` says |
| GpsViewer.GPSMapViewer.LoadGpsDataThread | LogBookViewerGUI/gps_map_viewer.py:149-203 | it reports failure iff no globbed path is a log file, and then the data is unchanged; otherwise the data is reset and becomes the result of loading the selected and date-filtered files, which is consistent |
| CrossFile.LogFileNameHasNoE | dbus-logger.py:296 | a logger file name contains no `e`, so it never contains `sensor_log_` (with dbus-logger.py line 36) |
| CrossFile.LogFileNameDate | LogBookViewerGUI/gps_map_viewer.py:212-216 | the viewer's date extraction recovers the date stamp the logger put into the file name (with dbus-logger.py line 296) |
| CrossFile.LogFileSelected | LogBookViewerGUI/gps_map_viewer.py:156-157 | every file the logger writes, in any directory, passes the viewer's log-file filter (with dbus-logger.py lines 296-297) |
| CrossFile.LogFileKeptIffWithinBounds | LogBookViewerGUI/gps_map_viewer.py:205-230 | the date filter keeps a logger file exactly when its date stamp passes both bound tests (with dbus-logger.py line 296) |
| CrossFile.LogFileKeptIffBetweenDays | LogBookViewerGUI/gps_map_viewer.py:205-230 | with bounds entered as the stamps of two days, a logger file is kept exactly when its day lies between them, both included; an empty bound imposes nothing (with dbus-logger.py line 296) |
| CrossFile.LoggerRowsReadAlike | LogBookViewerGUI/gps_map_viewer.py:245-259 | on a full row of a logger file, reading by header and reading columns 0, 4, 5 and 6 give the same fields, and the row is not skipped (with dbus-logger.py lines 306-311) |

## Left out

- D-Bus wiring is not modelled: creating the `DbusMonitor` and registering callbacks in `start_logging`. The bus is a `Bus` value, and its service lists and values are inputs.
- `_on_device_removed` is not modelled: it only logs.
- Signal handling, argument parsing, `main` and the Python `logging` output are not modelled.
- Threads, the data lock and the worker's `time.sleep(min_log_interval)` are not modelled. Each worker iteration is one `Tick` with its clock readings given, and callbacks are not interleaved inside an iteration.
- File I/O is abstract.
  - A write's outcome is an input.
  - A failed write leaves the file unchanged; partial writes, `fsync` and `os.makedirs` are not modelled.
  - CSV text quoting is not modelled: a file is a list of header and data lines.
- DbusLog.DbusLogger.CleanupOldLogs: every matching old file is assumed to be removed. In the code, the first exception from `listdir`, `getmtime` or `remove` ends the loop and keeps the remaining files.
- DbusLog.DbusLogger.OnValueChanged requires that a code in `options` be a configured one, as the monitor list guarantees. A change carrying some other code is not modelled: the source would cache it, and `csv.DictWriter` would then refuse every record.
- Exceptions raised inside `_update_cache_from_service` and `_on_value_changed` are not modelled: logging them would leave the cache partly updated.
- Floating point is left out. Times and values are reals, and `float(...)` and `round(x, 4)` are the parameters `FloatOps.parse` and `FloatOps.round4`.
  - A NaN or infinite coordinate fails the range test in the code. It is modelled as a value that `parse` rejects, which skips the row in the same way.
  - A NaN or infinite speed is left out.
- `glob.glob` is not modelled: its result and order are the input `globbed`.
- Reading and decoding files is not modelled.
  - A file that cannot be opened is `None`.
  - Parsing CSV text into rows is not modelled.
  - The header sniff of the first 1024 characters is the flag `CsvFile.hasHeader`.
  - A decoding or CSV error in the middle of a file, which ends that file early, is not modelled.
- `str.isdigit` is modelled for ASCII digits only. `os.path.basename` is modelled for `/` separators only.
- `_filter_files_by_date` has a bare `except` that would include the file. Nothing in its body raises for a string path, so that branch is not modelled.
- The Tk interface is not modelled: widgets, status and progress messages, map generation (`generate_map`, `_generate_map_thread`), `clear_data` and the other scripts of the repository.

