/**
 * What each DbusLogger operation does to the logger's state, as pure functions
 * over a LoggerState value, and the properties of those functions: what the
 * cache holds after priming and after updates, the shape of every composed
 * record, the bounded record buffer, the append-only CSV files, the retention
 * rule, and the per-tick sampling and flushing decision.
 */
module LoggerSpec {
  import opened Wrappers
  import opened Text
  import opened LoggerTypes

  /** The DbusLogger fields that its operations change. */
  datatype LoggerState = LoggerState(
    sensorData: map<string, Reading>,  // the sensor cache
    dataChanged: bool,                 // the dirty flag
    lastLogTime: real,                 // when the last sample was taken
    dataBuffer: seq<Record>,           // the record deque, oldest first
    logDir: map<string, DiskFile>)     // the contents of the log directory

  /** Every cache key is a configured code. */
  predicate CacheConfigured(cache: map<string, Reading>)
  {
    cache.Keys <= CodeSet()
  }

  // ---------------------------------------------------------------- priming

  /** The value the priming loop finds for `path`: the first non-None one over the services. */
  function FirstValue(bus: Bus, services: seq<string>, path: string): (v: Option<Value>)
    ensures v.Some? ==>
      exists i :: 0 <= i < |services| && GetValue(bus, services[i], path) == v
        && forall j :: 0 <= j < i ==> GetValue(bus, services[j], path).None?
    ensures v.None? ==> forall i :: 0 <= i < |services| ==> GetValue(bus, services[i], path).None?
  {
    if services == [] then None
    else if GetValue(bus, services[0], path).Some? then GetValue(bus, services[0], path)
    else
      var v := FirstValue(bus, services[1..], path);
      assert forall i :: 1 <= i < |services| ==> services[i] == services[1..][i - 1];
      v
  }

  /** The cache entry the priming loop stores for one monitored path. */
  function PrimeEntry(cache: map<string, Reading>, bus: Bus, e: Entry, now: real): map<string, Reading>
  {
    cache[e.code := Reading(FirstValue(bus, GetServiceList(bus, e.serviceClass), e.path), now)]
  }

  /** The priming loop run over a sequence of monitored paths. */
  function PrimeAll(cache: map<string, Reading>, bus: Bus, entries: seq<Entry>, now: real): map<string, Reading>
  {
    if entries == [] then cache
    else PrimeEntry(PrimeAll(cache, bus, entries[..|entries| - 1], now), bus, entries[|entries| - 1], now)
  }

  lemma PrimeAllSnoc(cache: map<string, Reading>, bus: Bus, entries: seq<Entry>, e: Entry, now: real)
    ensures PrimeAll(cache, bus, entries + [e], now) == PrimeEntry(PrimeAll(cache, bus, entries, now), bus, e, now)
  {
    assert (entries + [e])[..|entries|] == entries;
  }

  /** One more path of a service class primed after the entries already `done`. */
  lemma PrimeTaggedSnoc(cache: map<string, Reading>, bus: Bus, done: seq<Entry>, cls: string,
                        paths: seq<PathSpec>, j: nat, now: real)
    requires j < |paths|
    ensures PrimeAll(cache, bus, done + Tagged(cls, paths[..j + 1]), now)
      == PrimeEntry(PrimeAll(cache, bus, done + Tagged(cls, paths[..j]), now), bus, Entry(cls, paths[j].path, paths[j].code), now)
  {
    var e := Entry(cls, paths[j].path, paths[j].code);
    TaggedSnoc(cls, paths, j);
    assert done + Tagged(cls, paths[..j + 1]) == (done + Tagged(cls, paths[..j])) + [e];
    PrimeAllSnoc(cache, bus, done + Tagged(cls, paths[..j]), e, now);
  }

  /** Priming adds exactly the codes it walks over, and keeps every other entry. */
  lemma {:induction false} PrimeAllKeys(cache: map<string, Reading>, bus: Bus, entries: seq<Entry>, now: real)
    ensures PrimeAll(cache, bus, entries, now).Keys == cache.Keys + set e | e in entries :: e.code
    ensures forall k :: k in cache && (forall e :: e in entries ==> e.code != k) ==>
      PrimeAll(cache, bus, entries, now)[k] == cache[k]
  {
    if entries != [] {
      var front := entries[..|entries| - 1];
      PrimeAllKeys(cache, bus, front, now);
      assert entries == front + [entries[|entries| - 1]];
      assert forall e :: e in entries <==> e in front || e == entries[|entries| - 1];
    }
  }

  /** With distinct codes, each code ends up holding the value found for its own path. */
  lemma {:induction false} PrimeAllValue(cache: map<string, Reading>, bus: Bus, entries: seq<Entry>, now: real, i: nat)
    requires i < |entries|
    requires forall j, k :: 0 <= j < k < |entries| ==> entries[j].code != entries[k].code
    ensures entries[i].code in PrimeAll(cache, bus, entries, now)
    ensures PrimeAll(cache, bus, entries, now)[entries[i].code]
      == Reading(FirstValue(bus, GetServiceList(bus, entries[i].serviceClass), entries[i].path), now)
  {
    if i < |entries| - 1 {
      var front := entries[..|entries| - 1];
      PrimeAllValue(cache, bus, front, now, i);
    }
  }

  /**
   * `_initialize_sensor_cache`: with no monitor nothing changes; otherwise every
   * configured code is (re)stored with the first non-None value found for its
   * path (None when there is none), and the dirty flag is set.
   */
  function PrimeCache(st: LoggerState, bus: Option<Bus>, now: real): LoggerState
  {
    if bus.None? then st
    else st.(sensorData := PrimeAll(st.sensorData, bus.value, MonitoredEntries, now), dataChanged := true)
  }

  /** After priming, the cache holds every configured code, each with the value found on the bus. */
  lemma PrimedCacheContents(st: LoggerState, bus: Bus, now: real)
    ensures var c := PrimeCache(st, Some(bus), now).sensorData;
      && c.Keys == st.sensorData.Keys + CodeSet()
      && (forall i :: 0 <= i < |MonitoredEntries| ==>
            c[MonitoredEntries[i].code]
              == Reading(FirstValue(bus, GetServiceList(bus, MonitoredEntries[i].serviceClass), MonitoredEntries[i].path), now))
      && PrimeCache(st, Some(bus), now).dataChanged
  {
    PrimeAllKeys(st.sensorData, bus, MonitoredEntries, now);
    MonitoredCodes();
    forall i | 0 <= i < |MonitoredEntries| {
      PrimeAllValue(st.sensorData, bus, MonitoredEntries, now, i);
    }
  }

  /** Priming adds only configured codes, so a cache of configured codes stays one. */
  lemma PrimeKeepsConfigured(st: LoggerState, bus: Bus, now: real)
    requires CacheConfigured(st.sensorData)
    ensures CacheConfigured(PrimeCache(st, Some(bus), now).sensorData)
    ensures PrimeCache(st, Some(bus), now).dataBuffer == st.dataBuffer
  {
    PrimedCacheContents(st, bus, now);
  }

  // ------------------------------------------------- updates from the bus

  /** The loop of `_update_cache_from_service` over the paths of one class. */
  function RefreshPaths(cache: map<string, Reading>, changed: bool, bus: Bus, serviceName: string,
                        paths: seq<PathSpec>, now: real): (map<string, Reading>, bool)
  {
    if paths == [] then (cache, changed)
    else
      var (c, ch) := RefreshPaths(cache, changed, bus, serviceName, paths[..|paths| - 1], now);
      var p := paths[|paths| - 1];
      var v := GetValue(bus, serviceName, p.path);
      if v.Some? then (c[p.code := Reading(v, now)], true) else (c, ch)
  }

  lemma RefreshPathsSnoc(cache: map<string, Reading>, changed: bool, bus: Bus, serviceName: string,
                         paths: seq<PathSpec>, p: PathSpec, now: real)
    ensures RefreshPaths(cache, changed, bus, serviceName, paths + [p], now) ==
      var (c, ch) := RefreshPaths(cache, changed, bus, serviceName, paths, now);
      var v := GetValue(bus, serviceName, p.path);
      if v.Some? then (c[p.code := Reading(v, now)], true) else (c, ch)
  {
    assert (paths + [p])[..|paths|] == paths;
  }

  /**
   * A refresh touches only the codes of the paths it walks, writes only
   * non-None values stamped with the refresh time, never drops an entry, and
   * sets the dirty flag exactly when some path had a value.
   */
  lemma {:induction false} RefreshPathsFacts(cache: map<string, Reading>, changed: bool, bus: Bus, serviceName: string,
                                             paths: seq<PathSpec>, now: real)
    ensures var (c, ch) := RefreshPaths(cache, changed, bus, serviceName, paths, now);
      && cache.Keys <= c.Keys
      && (forall k :: k in c && (k !in cache || c[k] != cache[k]) ==>
            c[k].value.Some? && c[k].timestamp == now
            && exists i :: 0 <= i < |paths| && paths[i].code == k && c[k].value == GetValue(bus, serviceName, paths[i].path))
      && (forall i ::
            (&& 0 <= i < |paths| && GetValue(bus, serviceName, paths[i].path).Some?
             && (forall j :: i < j < |paths| ==> paths[j].code != paths[i].code)) ==>
            paths[i].code in c && c[paths[i].code] == Reading(GetValue(bus, serviceName, paths[i].path), now))
      && (ch <==> changed || exists i :: 0 <= i < |paths| && GetValue(bus, serviceName, paths[i].path).Some?)
  {
    if paths != [] {
      var front := paths[..|paths| - 1];
      var p := paths[|paths| - 1];
      RefreshPathsFacts(cache, changed, bus, serviceName, front, now);
      assert forall i :: 0 <= i < |front| ==> front[i] == paths[i];
      var (c0, ch0) := RefreshPaths(cache, changed, bus, serviceName, front, now);
      var (c, ch) := RefreshPaths(cache, changed, bus, serviceName, paths, now);
      if GetValue(bus, serviceName, p.path).Some? {
        assert c == c0[p.code := Reading(GetValue(bus, serviceName, p.path), now)];
        forall k | k in c && (k !in cache || c[k] != cache[k])
          ensures exists i :: 0 <= i < |paths| && paths[i].code == k && c[k].value == GetValue(bus, serviceName, paths[i].path)
        {
          if k == p.code {
            assert paths[|paths| - 1].code == k;
          } else {
            var i :| 0 <= i < |front| && front[i].code == k && c0[k].value == GetValue(bus, serviceName, front[i].path);
            assert paths[i].code == k;
          }
        }
      } else {
        assert c == c0;
      }
    }
  }

  /**
   * `_update_cache_from_service`: refresh the paths of the service's class
   * (first three dot-separated parts of its name) from that service.
   */
  function UpdateFromService(st: LoggerState, bus: Option<Bus>, serviceName: string, now: real): LoggerState
  {
    if bus.None? then st
    else
      var (c, ch) := RefreshPaths(st.sensorData, st.dataChanged, bus.value, serviceName,
                                  PathsOf(ServiceClass(serviceName)), now);
      st.(sensorData := c, dataChanged := ch)
  }

  /** A service whose class is not monitored changes nothing. */
  lemma UnknownServiceChangesNothing(st: LoggerState, bus: Option<Bus>, serviceName: string, now: real)
    requires ServiceClass(serviceName) != BatteryClass && ServiceClass(serviceName) != GpsClass
    ensures UpdateFromService(st, bus, serviceName, now) == st
  {
  }

  /**
   * What an update from a service changes: only codes of its class, only to
   * non-None values stamped now; the dirty flag is set iff some value was found.
   */
  lemma UpdateFromServiceFacts(st: LoggerState, bus: Bus, serviceName: string, now: real)
    ensures var st' := UpdateFromService(st, Some(bus), serviceName, now);
      var paths := PathsOf(ServiceClass(serviceName));
      && st'.dataBuffer == st.dataBuffer && st'.lastLogTime == st.lastLogTime && st'.logDir == st.logDir
      && st.sensorData.Keys <= st'.sensorData.Keys
      && (forall k :: k in st'.sensorData && (k !in st.sensorData || st'.sensorData[k] != st.sensorData[k]) ==>
            st'.sensorData[k].value.Some? && st'.sensorData[k].timestamp == now
            && exists i :: 0 <= i < |paths| && paths[i].code == k && st'.sensorData[k].value == GetValue(bus, serviceName, paths[i].path))
      && (forall i :: 0 <= i < |paths| && GetValue(bus, serviceName, paths[i].path).Some? ==>
            paths[i].code in st'.sensorData && st'.sensorData[paths[i].code] == Reading(GetValue(bus, serviceName, paths[i].path), now))
      && (st'.dataChanged <==> st.dataChanged || exists i :: 0 <= i < |paths| && GetValue(bus, serviceName, paths[i].path).Some?)
      && (CacheConfigured(st.sensorData) ==> CacheConfigured(st'.sensorData))
  {
    RefreshPathsFacts(st.sensorData, st.dataChanged, bus, serviceName, PathsOf(ServiceClass(serviceName)), now);
  }

  /**
   * `_on_value_changed`: ignored unless `changes` has a `Value` and `options`
   * a non-empty `code`; otherwise that code is overwritten and the cache is dirty.
   */
  function ApplyValueChange(st: LoggerState, options: map<string, string>, changes: map<string, Option<Value>>,
                            now: real): LoggerState
  {
    if "Value" !in changes then st
    else if "code" !in options || options["code"] == "" then st
    else st.(sensorData := st.sensorData[options["code"] := Reading(changes["Value"], now)], dataChanged := true)
  }

  /**
   * A change whose code is a configured one keeps a cache of configured codes
   * one, and touches neither the buffer nor the files.
   */
  lemma ValueChangeKeepsConfigured(st: LoggerState, options: map<string, string>,
                                   changes: map<string, Option<Value>>, now: real)
    requires CacheConfigured(st.sensorData)
    requires "code" in options && options["code"] != "" ==> options["code"] in CodeSet()
    ensures CacheConfigured(ApplyValueChange(st, options, changes, now).sensorData)
    ensures ApplyValueChange(st, options, changes, now).dataBuffer == st.dataBuffer
    ensures ApplyValueChange(st, options, changes, now).logDir == st.logDir
  {
  }

  /** Back-to-back changes of one code keep only the latest value. */
  lemma LatestChangeWins(st: LoggerState, options: map<string, string>,
                         first: map<string, Option<Value>>, second: map<string, Option<Value>>, t1: real, t2: real)
    requires "Value" in second
    ensures ApplyValueChange(ApplyValueChange(st, options, first, t1), options, second, t2)
         == ApplyValueChange(st, options, second, t2)
  {
  }

  // ---------------------------------------------------------- composing records

  /** A cached value as a record field: None becomes the no-value marker. */
  function CellOf(v: Option<Value>): Cell
  {
    if v.Some? then Present(v.value) else Missing
  }

  /**
   * `get_sensor_data`: every cached key with its value (None as the marker),
   * `timestamp`, and the marker for every configured code never seen.
   */
  function ComposeRecord(cache: map<string, Reading>, isoNow: string): (r: Record)
    ensures r.Keys == cache.Keys + CodeSet() + {TimestampField}
    ensures r[TimestampField] == Stamp(isoNow)
    ensures forall k :: k in cache && k != TimestampField ==> r[k] == CellOf(cache[k].value)
    ensures forall c :: c in CodeSet() && c !in cache ==> r[c] == Missing
  {
    var fromCache := map k | k in cache :: CellOf(cache[k].value);
    var stamped := fromCache[TimestampField := Stamp(isoNow)];
    stamped + map c | c in CodeSet() && c !in stamped :: Missing
  }

  /** A record of exactly the configured fields plus `timestamp`. */
  predicate WellFormedRecord(r: Record)
  {
    && r.Keys == CodeSet() + {TimestampField}
    && r[TimestampField].Stamp?
    && forall c :: c in CodeSet() ==> r[c].Missing? || r[c].Present?
  }

  /** With a configured cache, a composed record has exactly the configured fields and `timestamp`. */
  lemma ComposedRecordWellFormed(cache: map<string, Reading>, isoNow: string)
    requires CacheConfigured(cache)
    ensures WellFormedRecord(ComposeRecord(cache, isoNow))
  {
  }

  // ------------------------------------------------------------ the buffer

  /** `deque.append` on a deque of the given `maxlen`: at capacity, the oldest entry goes. */
  function DequeAppend<T>(q: seq<T>, x: T, maxlen: nat): (r: seq<T>)
    ensures |r| == if |q| < maxlen then |q| + 1 else maxlen
    ensures |q| < maxlen ==> r == q + [x]
    ensures 0 < maxlen == |q| ==> r == q[1..] + [x]
    ensures maxlen > 0 ==> r[|r| - 1] == x
  {
    var s := q + [x];
    if |s| <= maxlen then s else s[|s| - maxlen..]
  }

  /** Every entry of the appended deque is the new element or was already there. */
  lemma DequeAppendMembers<T>(q: seq<T>, x: T, maxlen: nat)
    ensures forall i :: 0 <= i < |DequeAppend(q, x, maxlen)| ==>
      DequeAppend(q, x, maxlen)[i] == x || DequeAppend(q, x, maxlen)[i] in q
  {
    var s := q + [x];
    assert forall i :: 0 <= i < |s| ==> s[i] == x || s[i] in q;
  }

  // ------------------------------------------------------------ writing

  /** The CSV row of a record: its cell for each fieldname, Blank where it has none. */
  function RowOf(rec: Record): seq<Cell>
  {
    var fs := Fieldnames();
    seq(|fs|, i requires 0 <= i < |fs| => if fs[i] in rec then rec[fs[i]] else Blank)
  }

  /**
   * A well-formed record loses nothing when written: no cell is blank, the
   * first is the timestamp, and pairing the header with the row gives the
   * record back.
   */
  lemma RowOfRoundTrip(rec: Record)
    requires WellFormedRecord(rec)
    ensures Blank !in RowOf(rec)
    ensures RowOf(rec)[0].Stamp?
    ensures (map i | 0 <= i < |Fieldnames()| :: Fieldnames()[i] := RowOf(rec)[i]) == rec
  {
    FieldnameSet();
    assert forall k :: k in rec ==> rec[k] != Blank;
    PairsGiveBack(Fieldnames(), RowOf(rec), rec);
  }

  /**
   * A row holding, under each name, the record's cell (Blank where it has
   * none) has no blank cell when the record has a cell for every name and no
   * Blank, and pairing names with cells rebuilds the record.
   */
  lemma PairsGiveBack(names: seq<string>, row: seq<Cell>, rec: Record)
    requires |row| == |names|
    requires forall i :: 0 <= i < |names| ==> row[i] == if names[i] in rec then rec[names[i]] else Blank
    requires rec.Keys == set k | k in names
    requires forall k :: k in rec ==> rec[k] != Blank
    ensures Blank !in row
    ensures (map i | 0 <= i < |names| :: names[i] := row[i]) == rec
  {
    assert forall i :: 0 <= i < |names| ==> names[i] in rec && row[i] == rec[names[i]];
    var m := map i | 0 <= i < |names| :: names[i] := row[i];
    forall k | k in rec
      ensures k in m && m[k] == rec[k]
    {
      var i :| 0 <= i < |names| && names[i] == k;
      assert names[i] in m;
    }
  }

  /** `writer.writerows(buffer)`: one data line per record, in buffer order. */
  function RowLines(records: seq<Record>): (lines: seq<Line>)
    ensures |lines| == |records|
    ensures forall i :: 0 <= i < |lines| ==> lines[i] == DataLine(RowOf(records[i]))
  {
    if records == [] then []
    else RowLines(records[..|records| - 1]) + [DataLine(RowOf(records[|records| - 1]))]
  }

  /** The file after appending `records`: a header first only if the file did not exist. */
  function AppendedFile(dir: map<string, DiskFile>, name: string, records: seq<Record>, now: real): DiskFile
  {
    var before := if name in dir then dir[name].lines else [HeaderLine(Fieldnames())];
    DiskFile(now, before + RowLines(records))
  }

  /**
   * `_write_buffer_to_disk` with the write's outcome given: nothing when the
   * buffer is empty; on success the buffer is appended to today's file and
   * cleared; on failure it is kept unless longer than five times buffer_size.
   */
  function WriteBuffer(st: LoggerState, bufferSize: int, today: CalendarDate, now: real, writeOk: bool): LoggerState
  {
    if st.dataBuffer == [] then st
    else if writeOk then
      var name := LogFileName(today);
      st.(dataBuffer := [], logDir := st.logDir[name := AppendedFile(st.logDir, name, st.dataBuffer, now)])
    else if |st.dataBuffer| > bufferSize * 5 then st.(dataBuffer := [])
    else st
  }

  /** A log file as the writer leaves it: the header once, at the top, then data rows only. */
  predicate WellFormedLog(lines: seq<Line>)
  {
    && |lines| >= 1
    && lines[0] == HeaderLine(Fieldnames())
    && forall i :: 1 <= i < |lines| ==> lines[i].DataLine?
  }

  /**
   * A successful write appends: the day's file keeps its old lines (or gets the
   * header when new) followed by one row per buffered record in order; no
   * other file changes; a well-formed log stays well-formed.
   */
  lemma WriteAppendsOnly(st: LoggerState, bufferSize: int, today: CalendarDate, now: real)
    requires st.dataBuffer != []
    ensures var st' := WriteBuffer(st, bufferSize, today, now, true);
      var name := LogFileName(today);
      && st'.dataBuffer == []
      && name in st'.logDir
      && var lines := st'.logDir[name].lines;
      && |lines| == (if name in st.logDir then |st.logDir[name].lines| else 1) + |st.dataBuffer|
      && (name in st.logDir ==> st.logDir[name].lines <= lines)
      && (name !in st.logDir ==> lines[0] == HeaderLine(Fieldnames()))
      && (forall i :: 0 <= i < |st.dataBuffer| ==>
            lines[|lines| - |st.dataBuffer| + i] == DataLine(RowOf(st.dataBuffer[i])))
      && (name !in st.logDir || WellFormedLog(st.logDir[name].lines) ==> WellFormedLog(lines))
      && (forall f :: f != name ==> (f in st'.logDir <==> f in st.logDir))
      && (forall f :: f != name && f in st.logDir ==> st'.logDir[f] == st.logDir[f])
  {
  }

  /**
   * The failure branch that clears a buffer longer than five times
   * buffer_size can never run: the deque holds at most twice buffer_size, so a
   * failed write always keeps the buffer as it is.
   */
  lemma FailedWriteKeepsBuffer(st: LoggerState, bufferSize: int, today: CalendarDate, now: real)
    requires bufferSize >= 0 && |st.dataBuffer| <= 2 * bufferSize
    ensures WriteBuffer(st, bufferSize, today, now, false) == st
  {
  }

  // ------------------------------------------------------------ retention

  /** `time.time() - days_to_keep * 24 * 60 * 60`. */
  function Cutoff(now: real, daysToKeep: int): real
  {
    now - (daysToKeep * SecondsPerDay) as real
  }

  /** A file `_cleanup_old_logs` deletes: a log-file name and a modification time before the cutoff. */
  predicate Expired(name: string, f: DiskFile, cutoff: real)
  {
    IsLogFileName(name) && f.mtime < cutoff
  }

  /** `_cleanup_old_logs`: the directory without its expired log files. */
  function CleanupLogs(st: LoggerState, now: real, daysToKeep: int): LoggerState
  {
    var cutoff := Cutoff(now, daysToKeep);
    st.(logDir := map f | f in st.logDir && !Expired(f, st.logDir[f], cutoff) :: st.logDir[f])
  }

  /**
   * A log file whose age is `age` seconds is deleted exactly when it is older
   * than `daysToKeep` days; files with other names are never deleted, and
   * nothing else in the state changes.
   */
  lemma RetentionByAge(st: LoggerState, now: real, daysToKeep: int, name: string, age: real)
    requires name in st.logDir && st.logDir[name].mtime == now - age
    ensures var st' := CleanupLogs(st, now, daysToKeep);
      && (name !in st'.logDir <==> IsLogFileName(name) && age > (daysToKeep * SecondsPerDay) as real)
      && (name in st'.logDir ==> st'.logDir[name] == st.logDir[name])
      && st'.logDir.Keys <= st.logDir.Keys
      && st'.(logDir := st.logDir) == st
  {
  }

  /** Every file the writer creates matches the retention pattern. */
  lemma WrittenFilesAreRetentionCandidates(d: CalendarDate)
    ensures IsLogFileName(LogFileName(d))
  {
  }

  // ------------------------------------------------------------ ticks

  /** The clock readings and the write outcome one iteration of `_log_worker` sees. */
  datatype TickInput = TickInput(now: real, isoNow: string, today: CalendarDate, writeOk: bool)

  /** The elapsed-time test of `_log_worker`: at least max_log_interval since the last sample. */
  predicate Due(cfg: Config, st: LoggerState, now: real)
  {
    now - st.lastLogTime >= cfg.maxLogInterval
  }

  /**
   * One iteration of `_log_worker`: when the cache is dirty or a sample is due,
   * compose a record and append it to the deque, write the buffer when it has
   * reached buffer_size or a sample was due, then clear the flag and remember
   * the time. Otherwise nothing happens.
   */
  function TickStep(cfg: Config, st: LoggerState, t: TickInput): LoggerState
    requires ValidConfig(cfg)
  {
    var due := Due(cfg, st, t.now);
    if st.dataChanged || due then
      var buffered := st.(dataBuffer := DequeAppend(st.dataBuffer, ComposeRecord(st.sensorData, t.isoNow), 2 * cfg.bufferSize));
      var written :=
        if |buffered.dataBuffer| >= cfg.bufferSize || due
        then WriteBuffer(buffered, cfg.bufferSize, t.today, t.now, t.writeOk)
        else buffered;
      written.(dataChanged := false, lastLogTime := t.now)
    else st
  }

  /** A tick that samples, spelled out step by step. */
  lemma TickStepSample(cfg: Config, st: LoggerState, t: TickInput)
    requires ValidConfig(cfg)
    requires st.dataChanged || Due(cfg, st, t.now)
    ensures var buffered := st.(dataBuffer := DequeAppend(st.dataBuffer, ComposeRecord(st.sensorData, t.isoNow), 2 * cfg.bufferSize));
      TickStep(cfg, st, t) ==
        (if |buffered.dataBuffer| >= cfg.bufferSize || Due(cfg, st, t.now)
         then WriteBuffer(buffered, cfg.bufferSize, t.today, t.now, t.writeOk)
         else buffered).(dataChanged := false, lastLogTime := t.now)
  {
  }

  /** Consecutive iterations of `_log_worker`. */
  function RunTicks(cfg: Config, st: LoggerState, ticks: seq<TickInput>): LoggerState
    requires ValidConfig(cfg)
  {
    if ticks == [] then st else TickStep(cfg, RunTicks(cfg, st, ticks[..|ticks| - 1]), ticks[|ticks| - 1])
  }

  /**
   * The sampling rule: a tick samples iff the cache is dirty or a sample is
   * due. A sample clears the flag, records the time, leaves the cache alone and
   * either buffers the new record or writes it out with the rest; a tick that
   * does not sample changes nothing.
   */
  lemma TickDecision(cfg: Config, st: LoggerState, t: TickInput)
    requires ValidConfig(cfg)
    requires |st.dataBuffer| <= 2 * cfg.bufferSize
    ensures var st' := TickStep(cfg, st, t);
      var rec := ComposeRecord(st.sensorData, t.isoNow);
      var appended := DequeAppend(st.dataBuffer, rec, 2 * cfg.bufferSize);
      var flush := |appended| >= cfg.bufferSize || Due(cfg, st, t.now);
      && (!st.dataChanged && !Due(cfg, st, t.now) ==> st' == st)
      && (st.dataChanged || Due(cfg, st, t.now) ==>
            && !st'.dataChanged && st'.lastLogTime == t.now && st'.sensorData == st.sensorData
            && (!flush ==> st'.dataBuffer == appended && st'.logDir == st.logDir)
            && (flush && t.writeOk && appended != [] ==>
                  && st'.dataBuffer == []
                  && LogFileName(t.today) in st'.logDir
                  && st'.logDir[LogFileName(t.today)] == AppendedFile(st.logDir, LogFileName(t.today), appended, t.now))
            && (flush && !t.writeOk ==> st'.dataBuffer == appended && st'.logDir == st.logDir))
  {
    var rec := ComposeRecord(st.sensorData, t.isoNow);
    var appended := DequeAppend(st.dataBuffer, rec, 2 * cfg.bufferSize);
    if st.dataChanged || Due(cfg, st, t.now) {
      FailedWriteKeepsBuffer(st.(dataBuffer := appended), cfg.bufferSize, t.today, t.now);
    }
  }

  /** A state the worker can be in: the deque within its maxlen, every buffered record well formed. */
  predicate BufferInvariant(cfg: Config, st: LoggerState)
  {
    && |st.dataBuffer| <= 2 * cfg.bufferSize
    && forall i :: 0 <= i < |st.dataBuffer| ==> WellFormedRecord(st.dataBuffer[i])
  }

  /** Appending a well-formed record to a deque of well-formed records keeps them all well formed. */
  lemma AppendKeepsWellFormed(q: seq<Record>, rec: Record, maxlen: nat)
    requires WellFormedRecord(rec)
    requires forall i :: 0 <= i < |q| ==> WellFormedRecord(q[i])
    ensures forall i :: 0 <= i < |DequeAppend(q, rec, maxlen)| ==> WellFormedRecord(DequeAppend(q, rec, maxlen)[i])
  {
    DequeAppendMembers(q, rec, maxlen);
  }

  /** A write attempt either empties the buffer or leaves it as it was, and never touches the cache. */
  lemma WriteKeepsBufferInvariant(cfg: Config, st: LoggerState, today: CalendarDate, now: real, writeOk: bool)
    requires BufferInvariant(cfg, st)
    ensures BufferInvariant(cfg, WriteBuffer(st, cfg.bufferSize, today, now, writeOk))
    ensures WriteBuffer(st, cfg.bufferSize, today, now, writeOk).sensorData == st.sensorData
  {
  }

  lemma TickKeepsBufferInvariant(cfg: Config, st: LoggerState, t: TickInput)
    requires ValidConfig(cfg)
    requires CacheConfigured(st.sensorData)
    requires BufferInvariant(cfg, st)
    ensures BufferInvariant(cfg, TickStep(cfg, st, t))
    ensures TickStep(cfg, st, t).sensorData == st.sensorData
  {
    if st.dataChanged || Due(cfg, st, t.now) {
      var rec := ComposeRecord(st.sensorData, t.isoNow);
      ComposedRecordWellFormed(st.sensorData, t.isoNow);
      AppendKeepsWellFormed(st.dataBuffer, rec, 2 * cfg.bufferSize);
      var buffered := st.(dataBuffer := DequeAppend(st.dataBuffer, rec, 2 * cfg.bufferSize));
      assert BufferInvariant(cfg, buffered);
      WriteKeepsBufferInvariant(cfg, buffered, t.today, t.now, t.writeOk);
    }
  }

  /**
   * Whatever the clock and however many writes fail, the buffer never holds
   * more than 2 * buffer_size records, and every record in it has exactly the
   * configured fields and `timestamp`.
   */
  lemma {:induction false} RunKeepsBufferInvariant(cfg: Config, st: LoggerState, ticks: seq<TickInput>)
    requires ValidConfig(cfg)
    requires CacheConfigured(st.sensorData)
    requires BufferInvariant(cfg, st)
    ensures BufferInvariant(cfg, RunTicks(cfg, st, ticks))
    ensures RunTicks(cfg, st, ticks).sensorData == st.sensorData
  {
    if ticks != [] {
      RunKeepsBufferInvariant(cfg, st, ticks[..|ticks| - 1]);
      TickKeepsBufferInvariant(cfg, RunTicks(cfg, st, ticks[..|ticks| - 1]), ticks[|ticks| - 1]);
    }
  }

  // ------------------------------------------------------------ shutdown

  /** `stop`: one last write attempt, then retention with the default 30 days. */
  function StopStep(cfg: Config, st: LoggerState, today: CalendarDate, now: real, writeOk: bool): LoggerState
  {
    CleanupLogs(WriteBuffer(st, cfg.bufferSize, today, now, writeOk), now, DefaultDaysToKeep)
  }

  /** A successful final write is never undone by the retention pass that follows it. */
  lemma StopKeepsFinalWrite(cfg: Config, st: LoggerState, today: CalendarDate, now: real)
    requires st.dataBuffer != []
    ensures var st' := StopStep(cfg, st, today, now, true);
      && st'.dataBuffer == []
      && LogFileName(today) in st'.logDir
      && st'.logDir[LogFileName(today)] == AppendedFile(st.logDir, LogFileName(today), st.dataBuffer, now)
  {
  }
}
