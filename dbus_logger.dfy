/**
 * The `DbusLogger` class of dbus-logger.py, with the D-Bus wiring, the thread
 * and the real file system abstracted away: the bus is a `Bus` value passed to
 * the methods that read it, the clock readings and the outcome of a file write
 * are parameters, and the log directory is the field `logDir`. Each method is
 * proved to change the object exactly as the matching function of LoggerSpec
 * says, so the lemmas proved there hold of the class too.
 */
module DbusLog {
  import opened Wrappers
  import opened LoggerTypes
  import opened LoggerSpec
  import opened Text

  class DbusLogger {
    const bufferSize: int
    const minLogInterval: real
    const maxLogInterval: real

    var dataBuffer: seq<Record>
    var running: bool
    var sensorData: map<string, Reading>
    var lastLogTime: real
    var dataChanged: bool
    var logDir: map<string, DiskFile>

    function Cfg(): Config
    {
      Config(bufferSize, minLogInterval, maxLogInterval)
    }

    /** The object's state as a LoggerState value. */
    function Current(): LoggerState
      reads this
    {
      LoggerState(sensorData, dataChanged, lastLogTime, dataBuffer, logDir)
    }

    /**
     * The settings passed validation, the deque is within its maxlen and holds
     * only records with exactly the CSV's fields, and the cache holds only
     * configured codes (so every record composed from it is such a record).
     */
    ghost predicate Valid()
      reads this
    {
      ValidConfig(Cfg()) && BufferInvariant(Cfg(), Current()) && CacheConfigured(sensorData)
    }

    constructor (cfg: Config, existing: map<string, DiskFile>)
      requires ValidConfig(cfg)
      ensures Valid() && Cfg() == cfg
      ensures dataBuffer == [] && running && sensorData == map[]
      ensures lastLogTime == 0.0 && !dataChanged && logDir == existing
    {
      bufferSize := cfg.bufferSize;
      minLogInterval := cfg.minLogInterval;
      maxLogInterval := cfg.maxLogInterval;
      dataBuffer := [];
      running := true;
      sensorData := map[];
      lastLogTime := 0.0;
      dataChanged := false;
      logDir := existing;
    }

    /**
     * `DbusLogger(...)`: raises (here: Failure) when the settings are rejected,
     * otherwise a logger with an empty buffer, running, a clean cache and
     * last_log_time 0. `existing` is what the log directory already holds.
     */
    static method Create(cfg: Config, existing: map<string, DiskFile>) returns (r: Result<DbusLogger, ConfigError>)
      ensures r.Failure? <==> CheckConfig(cfg).Some?
      ensures r.Failure? ==> r.error == CheckConfig(cfg).value
      ensures r.Success? ==>
        && fresh(r.value) && r.value.Valid() && r.value.Cfg() == cfg
        && r.value.dataBuffer == [] && r.value.running && r.value.sensorData == map[]
        && r.value.lastLogTime == 0.0 && !r.value.dataChanged && r.value.logDir == existing
    {
      var err := CheckConfig(cfg);
      if err.Some? {
        return Failure(err.value);
      }
      var logger := new DbusLogger(cfg, existing);
      return Success(logger);
    }

    /** `_initialize_sensor_cache`, with `bus` None when no monitor was created. */
    method InitializeSensorCache(bus: Option<Bus>, now: real)
      requires Valid()
      modifies this
      ensures Valid() && running == old(running)
      ensures Current() == PrimeCache(old(Current()), bus, now)
    {
      if bus.None? {
        return;
      }
      PrimeSpecs(bus.value, MonitorList, now);
      FlattenMonitorList();
      dataChanged := true;
      PrimeKeepsConfigured(old(Current()), bus.value, now);
    }

    /** The outer loop of `_initialize_sensor_cache`: prime every path of every service class in `specs`. */
    method PrimeSpecs(b: Bus, specs: seq<ServiceSpec>, now: real)
      modifies this`sensorData
      ensures sensorData == PrimeAll(old(sensorData), b, Flatten(specs), now)
    {
      ghost var start := sensorData;
      var i := 0;
      while i < |specs|
        invariant 0 <= i <= |specs|
        invariant sensorData == PrimeAll(start, b, Flatten(specs[..i]), now)
      {
        PrimePaths(b, specs[i].serviceClass, specs[i].paths, now, start, Flatten(specs[..i]));
        assert specs[..i + 1][..i] == specs[..i];
        i := i + 1;
      }
      assert specs[..i] == specs;
    }

    /** The middle loop of `_initialize_sensor_cache`: prime every path of one service class. */
    method PrimePaths(b: Bus, serviceClass: string, paths: seq<PathSpec>, now: real,
                      ghost start: map<string, Reading>, ghost done: seq<Entry>)
      requires sensorData == PrimeAll(start, b, done, now)
      modifies this`sensorData
      ensures sensorData == PrimeAll(start, b, done + Tagged(serviceClass, paths), now)
    {
      var j := 0;
      assert done + Tagged(serviceClass, paths[..j]) == done;
      while j < |paths|
        invariant 0 <= j <= |paths|
        invariant sensorData == PrimeAll(start, b, done + Tagged(serviceClass, paths[..j]), now)
      {
        var p := paths[j];
        var value := FirstServiceValue(b, GetServiceList(b, serviceClass), p.path);
        PrimeTaggedSnoc(start, b, done, serviceClass, paths, j, now);
        sensorData := sensorData[p.code := Reading(value, now)];
        j := j + 1;
      }
      assert paths[..j] == paths;
    }

    /**
     * The innermost loop of `_initialize_sensor_cache`: ask each service of
     * the class for the path's value, stopping at the first one that is not None.
     */
    static method FirstServiceValue(b: Bus, services: seq<string>, path: string) returns (value: Option<Value>)
      ensures value == FirstValue(b, services, path)
    {
      value := None;
      var k := 0;
      while k < |services|
        invariant 0 <= k <= |services|
        invariant value.None?
        invariant FirstValue(b, services, path) == FirstValue(b, services[k..], path)
      {
        value := GetValue(b, services[k], path);
        if value.Some? {
          return;
        }
        assert services[k..][1..] == services[k + 1..];
        k := k + 1;
      }
    }

    /** `_update_cache_from_service`, with `bus` None when no monitor was created. */
    method UpdateCacheFromService(bus: Option<Bus>, serviceName: string, now: real)
      requires Valid()
      modifies this
      ensures Valid() && running == old(running)
      ensures Current() == UpdateFromService(old(Current()), bus, serviceName, now)
    {
      if bus.None? {
        return;
      }
      var paths := PathsOf(ServiceClass(serviceName));
      RefreshFromService(bus.value, serviceName, paths, now);
      UpdateFromServiceFacts(old(Current()), bus.value, serviceName, now);
    }

    /** The loop of `_update_cache_from_service`: store every non-None value the service reports. */
    method RefreshFromService(b: Bus, serviceName: string, paths: seq<PathSpec>, now: real)
      modifies this`sensorData, this`dataChanged
      ensures (sensorData, dataChanged) == RefreshPaths(old(sensorData), old(dataChanged), b, serviceName, paths, now)
    {
      ghost var start, startChanged := sensorData, dataChanged;
      var i := 0;
      while i < |paths|
        invariant 0 <= i <= |paths|
        invariant (sensorData, dataChanged) == RefreshPaths(start, startChanged, b, serviceName, paths[..i], now)
      {
        var p := paths[i];
        var value := GetValue(b, serviceName, p.path);
        RefreshPathsSnoc(start, startChanged, b, serviceName, paths[..i], p, now);
        assert paths[..i + 1] == paths[..i] + [p];
        if value.Some? {
          sensorData := sensorData[p.code := Reading(value, now)];
          dataChanged := true;
        }
        i := i + 1;
      }
      assert paths[..i] == paths;
    }

    /** `_on_device_added`: refresh the cache from the new service. */
    method OnDeviceAdded(bus: Option<Bus>, serviceName: string, now: real)
      requires Valid()
      modifies this
      ensures Valid() && running == old(running)
      ensures Current() == UpdateFromService(old(Current()), bus, serviceName, now)
    {
      UpdateCacheFromService(bus, serviceName, now);
    }

    /**
     * `_on_value_changed`: `options` is the path's monitor-list entry, so its
     * code, when it has one, is a configured code; `changes` is the bus's change set.
     */
    method OnValueChanged(options: map<string, string>, changes: map<string, Option<Value>>, now: real)
      requires Valid()
      requires "code" in options && options["code"] != "" ==> options["code"] in CodeSet()
      modifies this
      ensures Valid() && running == old(running)
      ensures Current() == ApplyValueChange(old(Current()), options, changes, now)
    {
      if "Value" !in changes {
        return;
      }
      if "code" !in options || options["code"] == "" {
        return;
      }
      var sensorKey := options["code"];
      var value := changes["Value"];
      sensorData := sensorData[sensorKey := Reading(value, now)];
      dataChanged := true;
      ValueChangeKeepsConfigured(old(Current()), options, changes, now);
    }

    /** `get_sensor_data`: compose a record from the cache; nothing changes. */
    method GetSensorData(isoNow: string) returns (data: Record)
      ensures data == ComposeRecord(sensorData, isoNow)
    {
      data := map[];
      var pending := sensorData.Keys;
      while pending != {}
        invariant pending <= sensorData.Keys
        invariant data.Keys == sensorData.Keys - pending
        invariant forall k :: k in data ==> data[k] == CellOf(sensorData[k].value)
        decreases pending
      {
        var k :| k in pending;
        data := data[k := CellOf(sensorData[k].value)];
        pending := pending - {k};
      }
      data := data[TimestampField := Stamp(isoNow)];
      data := AddMissing(data, CodeSet());
      ghost var r := ComposeRecord(sensorData, isoNow);
      assert data.Keys == r.Keys;
      assert forall k :: k in data ==> data[k] == r[k];
    }

    /** The last loop of `get_sensor_data`: the marker for every expected code the record lacks. */
    static method AddMissing(record: Record, expected: set<string>) returns (data: Record)
      ensures data.Keys == record.Keys + expected
      ensures forall k :: k in data ==> data[k] == if k in record then record[k] else Missing
    {
      data := record;
      var unchecked := expected;
      while unchecked != {}
        invariant unchecked <= expected
        invariant data.Keys == record.Keys + (expected - unchecked)
        invariant forall k :: k in data ==> data[k] == if k in record then record[k] else Missing
        decreases unchecked
      {
        var c :| c in unchecked;
        if c !in data {
          data := data[c := Missing];
        }
        unchecked := unchecked - {c};
      }
    }

    /** `_write_buffer_to_disk`: `today` and `now` are the clock at the write, `writeOk` its outcome. */
    method WriteBufferToDisk(today: CalendarDate, now: real, writeOk: bool)
      requires Valid()
      modifies this
      ensures Valid() && running == old(running)
      ensures Current() == WriteBuffer(old(Current()), bufferSize, today, now, writeOk)
    {
      WriteKeepsBufferInvariant(Cfg(), Current(), today, now, writeOk);
      if dataBuffer == [] {
        return;
      }
      var filename := LogFileName(today);
      var fileExists := filename in logDir;
      if writeOk {
        var before := if fileExists then logDir[filename].lines else [HeaderLine(Fieldnames())];
        logDir := logDir[filename := DiskFile(now, before + RowLines(dataBuffer))];
        dataBuffer := [];
      } else {
        dataBuffer := if |dataBuffer| > bufferSize * 5 then [] else dataBuffer;
      }
    }

    /** `_cleanup_old_logs(days_to_keep=30)`: delete the expired log files, in any order. */
    method CleanupOldLogs(now: real, daysToKeep: int := DefaultDaysToKeep)
      requires Valid()
      modifies this
      ensures Valid() && running == old(running)
      ensures Current() == CleanupLogs(old(Current()), now, daysToKeep)
    {
      var cutoffTime := now - (daysToKeep * SecondsPerDay) as real;
      var remaining := logDir.Keys;
      while remaining != {}
        invariant remaining <= old(logDir).Keys
        invariant logDir == map f | f in old(logDir) && (f in remaining || !Expired(f, old(logDir)[f], cutoffTime)) :: old(logDir)[f]
        invariant Valid() && running == old(running) && Current().(logDir := old(logDir)) == old(Current())
        decreases remaining
      {
        var filename :| filename in remaining;
        if LogFilePrefix <= filename && EndsWith(filename, CsvSuffix) {
          if logDir[filename].mtime < cutoffTime {
            logDir := logDir - {filename};
          }
        }
        remaining := remaining - {filename};
      }
    }

    /** One iteration of the `_log_worker` loop body. */
    method Tick(t: TickInput)
      requires Valid()
      modifies this
      ensures Valid() && running == old(running)
      ensures Current() == TickStep(Cfg(), old(Current()), t)
    {
      var currentTime := t.now;
      var changed := dataChanged;
      if changed || currentTime - lastLogTime >= maxLogInterval {
        var logEntry := GetSensorData(t.isoNow);
        ComposedRecordWellFormed(sensorData, t.isoNow);
        AppendKeepsWellFormed(dataBuffer, logEntry, 2 * bufferSize);
        dataBuffer := DequeAppend(dataBuffer, logEntry, 2 * bufferSize);
        if |dataBuffer| >= bufferSize || currentTime - lastLogTime >= maxLogInterval {
          WriteBufferToDisk(t.today, t.now, t.writeOk);
        }
        dataChanged := false;
        lastLogTime := currentTime;
        TickStepSample(Cfg(), old(Current()), t);
      }
    }

    /** `_log_worker`: one tick per input while the logger is running. */
    method LogWorker(ticks: seq<TickInput>)
      requires Valid()
      modifies this
      ensures Valid() && running == old(running)
      ensures Current() == if old(running) then RunTicks(Cfg(), old(Current()), ticks) else old(Current())
    {
      var i := 0;
      assert ticks[..i] == [];
      while running && i < |ticks|
        invariant 0 <= i <= |ticks|
        invariant Valid() && running == old(running)
        invariant !running ==> i == 0
        invariant Current() == RunTicks(Cfg(), old(Current()), ticks[..i])
      {
        assert ticks[..i + 1][..i] == ticks[..i];
        Tick(ticks[i]);
        i := i + 1;
      }
      assert running ==> ticks[..i] == ticks;
    }

    /** `stop`: stop the worker, make a last write attempt, then remove old logs. */
    method Stop(today: CalendarDate, now: real, writeOk: bool)
      requires Valid()
      modifies this
      ensures Valid() && !running
      ensures Current() == StopStep(Cfg(), old(Current()), today, now, writeOk)
    {
      running := false;
      WriteBufferToDisk(today, now, writeOk);
      CleanupOldLogs(now);
    }
  }
}
