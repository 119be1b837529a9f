/**
 * The data of the D-Bus logger (dbus-logger.py): bus values, cache readings,
 * composed records, the lines of a CSV log file, the fixed monitor list, the
 * interval configuration and the date-named log files.
 */
module LoggerTypes {
  import opened Wrappers
  import opened Text
  import opened Digits

  const LogFilePrefix: string := "dbus_log_"
  const CsvSuffix: string := ".csv"
  const TimestampField: string := "timestamp"
  const SecondsPerDay: int := 24 * 60 * 60
  const DefaultDaysToKeep: int := 30

  /** A non-None value as the bus delivers it. */
  datatype Value = Number(x: real) | Str(s: string)

  /** One cache entry of `sensor_data`: the value (None when the bus had none) and when it was stored. */
  datatype Reading = Reading(value: Option<Value>, timestamp: real)

  /** One field of a composed record, or of a row written to disk. */
  datatype Cell =
    | Missing             // the "no value" marker, float('nan') in the logger
    | Present(v: Value)   // a value taken from the cache
    | Stamp(iso: string)  // the record's `timestamp`, an ISO-8601 string
    | Blank               // what csv.DictWriter writes for a field the record lacks

  /** A composed record: field name to cell. */
  type Record = map<string, Cell>

  /** A line of a CSV log file: the header row or one data row. */
  datatype Line = HeaderLine(names: seq<string>) | DataLine(cells: seq<Cell>)

  /** A file in the log directory: its modification time and its lines. */
  datatype DiskFile = DiskFile(mtime: real, lines: seq<Line>)

  /** A monitored D-Bus path and the short code the logger stores its value under. */
  datatype PathSpec = PathSpec(path: string, code: string)
  datatype ServiceSpec = ServiceSpec(serviceClass: string, paths: seq<PathSpec>)
  datatype Entry = Entry(serviceClass: string, path: string, code: string)

  const BatteryClass: string := "com.victronenergy.battery"
  const GpsClass: string := "com.victronenergy.gps"

  /** `monitor_list`, in declaration order. */
  const MonitorList: seq<ServiceSpec> := [
    ServiceSpec(BatteryClass, [
      PathSpec("/Soc", "soc"),
      PathSpec("/Dc/0/Voltage", "voltage"),
      PathSpec("/Dc/0/Current", "current")]),
    ServiceSpec(GpsClass, [
      PathSpec("/Position/Latitude", "gps_lat"),
      PathSpec("/Position/Longitude", "gps_lon"),
      PathSpec("/Speed", "gps_speed")])
  ]

  /** The paths of one service class, each tagged with that class. */
  function Tagged(cls: string, paths: seq<PathSpec>): (r: seq<Entry>)
    ensures |r| == |paths|
    ensures forall i :: 0 <= i < |r| ==> r[i] == Entry(cls, paths[i].path, paths[i].code)
  {
    if paths == [] then []
    else Tagged(cls, paths[..|paths| - 1]) + [Entry(cls, paths[|paths| - 1].path, paths[|paths| - 1].code)]
  }

  lemma TaggedSnoc(cls: string, paths: seq<PathSpec>, j: nat)
    requires j < |paths|
    ensures Tagged(cls, paths[..j + 1]) == Tagged(cls, paths[..j]) + [Entry(cls, paths[j].path, paths[j].code)]
  {
    assert paths[..j + 1][..j] == paths[..j];
  }

  /** The nested `for service_class ...: for path ...:` walk, as one sequence. */
  function Flatten(specs: seq<ServiceSpec>): seq<Entry>
  {
    if specs == [] then []
    else Flatten(specs[..|specs| - 1]) + Tagged(specs[|specs| - 1].serviceClass, specs[|specs| - 1].paths)
  }

  const MonitoredEntries: seq<Entry> := [
    Entry(BatteryClass, "/Soc", "soc"),
    Entry(BatteryClass, "/Dc/0/Voltage", "voltage"),
    Entry(BatteryClass, "/Dc/0/Current", "current"),
    Entry(GpsClass, "/Position/Latitude", "gps_lat"),
    Entry(GpsClass, "/Position/Longitude", "gps_lon"),
    Entry(GpsClass, "/Speed", "gps_speed")
  ]

  /** Walking the monitor list visits the six monitored paths in declaration order. */
  lemma FlattenMonitorList()
    ensures Flatten(MonitorList) == MonitoredEntries
  {
    FlattenPair(MonitorList[0], MonitorList[1]);
    TaggedTriple(BatteryClass, MonitorList[0].paths[0], MonitorList[0].paths[1], MonitorList[0].paths[2]);
    TaggedTriple(GpsClass, MonitorList[1].paths[0], MonitorList[1].paths[1], MonitorList[1].paths[2]);
  }

  lemma FlattenPair(a: ServiceSpec, b: ServiceSpec)
    ensures Flatten([a, b]) == Tagged(a.serviceClass, a.paths) + Tagged(b.serviceClass, b.paths)
  {
    assert [a, b][..1] == [a];
    assert [a][..0] == [];
    assert Flatten([a]) == Flatten([]) + Tagged(a.serviceClass, a.paths);
  }

  lemma TaggedTriple(cls: string, p0: PathSpec, p1: PathSpec, p2: PathSpec)
    ensures Tagged(cls, [p0, p1, p2]) == [Entry(cls, p0.path, p0.code), Entry(cls, p1.path, p1.code), Entry(cls, p2.path, p2.code)]
  {
  }

  /** The codes of the monitored paths are the configured codes, and no two paths share one. */
  lemma MonitoredCodes()
    ensures (set e | e in MonitoredEntries :: e.code) == CodeSet()
    ensures forall j, k :: 0 <= j < k < |MonitoredEntries| ==> MonitoredEntries[j].code != MonitoredEntries[k].code
  {
    FlattenMonitorList();
    EntryCodes(MonitoredEntries, Codes());
  }

  /** The set of codes of `es`, given the codes of `es` position by position. */
  lemma EntryCodes(es: seq<Entry>, cs: seq<string>)
    requires |cs| == |es|
    requires forall i :: 0 <= i < |es| ==> es[i].code == cs[i]
    ensures (set e | e in es :: e.code) == set c | c in cs
  {
    forall c | c in (set e | e in es :: e.code)
      ensures c in cs
    {
      var e :| e in es && e.code == c;
      var i :| 0 <= i < |es| && es[i] == e;
      assert cs[i] == c;
    }
    forall c | c in cs
      ensures c in (set e | e in es :: e.code)
    {
      var i :| 0 <= i < |cs| && cs[i] == c;
      assert es[i] in es;
    }
  }

  /** The configured codes, in declaration order. */
  function Codes(): (cs: seq<string>)
    ensures cs == ["soc", "voltage", "current", "gps_lat", "gps_lon", "gps_speed"]
  {
    FlattenMonitorList();
    var es := Flatten(MonitorList);
    seq(|es|, i requires 0 <= i < |es| => es[i].code)
  }

  /** `expected_sensors`: the set of configured codes. */
  function CodeSet(): (s: set<string>)
    ensures TimestampField !in s
  {
    set c | c in Codes()
  }

  lemma CodeSetContents()
    ensures CodeSet() == {"soc", "voltage", "current", "gps_lat", "gps_lon", "gps_speed"}
  {
  }

  /** The CSV columns: `timestamp`, then every configured code in declaration order. */
  function Fieldnames(): (fs: seq<string>)
    ensures fs == ["timestamp", "soc", "voltage", "current", "gps_lat", "gps_lon", "gps_speed"]
  {
    [TimestampField] + Codes()
  }

  /** The header's names are exactly `timestamp` and the configured codes. */
  lemma FieldnameSet()
    ensures (set k | k in Fieldnames()) == CodeSet() + {TimestampField}
  {
    ConsSet(TimestampField, Codes());
  }

  lemma ConsSet(t: string, cs: seq<string>)
    ensures (set k | k in [t] + cs) == {t} + set c | c in cs
  {
    assert forall k :: k in [t] + cs <==> k == t || k in cs;
  }

  /** `monitor_list.get(service_class, {})`. */
  function PathsOf(cls: string): (paths: seq<PathSpec>)
    ensures cls == BatteryClass ==> paths == MonitorList[0].paths
    ensures cls == GpsClass ==> paths == MonitorList[1].paths
    ensures cls != BatteryClass && cls != GpsClass ==> paths == []
    ensures forall i :: 0 <= i < |paths| ==> paths[i].code in CodeSet()
    ensures forall i, j :: 0 <= i < j < |paths| ==> paths[i].code != paths[j].code
  {
    if cls == BatteryClass then MonitorList[0].paths
    else if cls == GpsClass then MonitorList[1].paths
    else []
  }

  /**
   * The service class of a service name: its first three dot-separated parts,
   * or the whole name when it has fewer.
   */
  function ServiceClass(serviceName: string): (cls: string)
    ensures cls <= serviceName
    ensures |SplitOn(serviceName, '.')| < 3 ==> cls == serviceName
    ensures |SplitOn(serviceName, '.')| >= 3 ==> SplitOn(cls, '.') == SplitOn(serviceName, '.')[..3]
  {
    var parts := SplitOn(serviceName, '.');
    if |parts| >= 3 then
      JoinSplit(serviceName, '.');
      JoinPrefix(parts, '.', 3);
      SplitJoin(parts[..3], '.');
      JoinWith(parts[..3], '.')
    else serviceName
  }

  /** The D-Bus side as the logger sees it: services per class and current values. */
  datatype Bus = Bus(servicesByClass: map<string, seq<string>>, values: map<(string, string), Value>)

  /** `DbusMonitor.get_service_list(service_class)`. */
  function GetServiceList(bus: Bus, cls: string): seq<string>
  {
    if cls in bus.servicesByClass then bus.servicesByClass[cls] else []
  }

  /** `DbusMonitor.get_value(service_name, path)`: None when the path has no valid value. */
  function GetValue(bus: Bus, serviceName: string, path: string): Option<Value>
  {
    if (serviceName, path) in bus.values then Some(bus.values[(serviceName, path)]) else None
  }

  /** The constructor's interval and buffer settings. */
  datatype Config = Config(bufferSize: int, minLogInterval: real, maxLogInterval: real)

  /** The `ValueError`s `DbusLogger.__init__` raises. */
  datatype ConfigError =
    | MinIntervalTooSmall      // min_log_interval <= 0.1
    | MaxIntervalNotAboveMin   // max_log_interval <= min_log_interval
    | MaxIntervalTooLarge      // max_log_interval > 600
    | NegativeBufferSize       // deque(maxlen=2*buffer_size) with a negative maxlen

  /** The checks of `__init__`, in the order it makes them; None when construction succeeds. */
  function CheckConfig(cfg: Config): (r: Option<ConfigError>)
    ensures r == None <==>
      cfg.minLogInterval > 0.1 && cfg.maxLogInterval > cfg.minLogInterval
      && cfg.maxLogInterval <= 600.0 && cfg.bufferSize >= 0
    ensures r == Some(MinIntervalTooSmall) <==> cfg.minLogInterval <= 0.1
    ensures r == Some(MaxIntervalNotAboveMin) <==> cfg.minLogInterval > 0.1 && cfg.maxLogInterval <= cfg.minLogInterval
    ensures r == Some(MaxIntervalTooLarge) <==>
      cfg.minLogInterval > 0.1 && cfg.maxLogInterval > cfg.minLogInterval && cfg.maxLogInterval > 600.0
  {
    if cfg.minLogInterval <= 0.1 then Some(MinIntervalTooSmall)
    else if cfg.maxLogInterval <= cfg.minLogInterval then Some(MaxIntervalNotAboveMin)
    else if cfg.maxLogInterval > 600.0 then Some(MaxIntervalTooLarge)
    else if cfg.bufferSize < 0 then Some(NegativeBufferSize)
    else None
  }

  predicate ValidConfig(cfg: Config)
  {
    CheckConfig(cfg) == None
  }

  /** The constructor's defaults: buffer_size=60, min_log_interval=1.0, max_log_interval=60.0. */
  const DefaultConfig: Config := Config(60, 1.0, 60.0)

  /** A local calendar date as `datetime.now()` gives it. */
  datatype Date = Date(year: int, month: int, day: int)

  type CalendarDate = d: Date | 1 <= d.year <= 9999 && 1 <= d.month <= 12 && 1 <= d.day <= 31
    witness Date(2000, 1, 1)

  /** The date's position in time, as one number: later dates give larger numbers. */
  function Ordinal(d: Date): int
  {
    d.year * 10000 + d.month * 100 + d.day
  }

  /** `strftime('%Y%m%d')`: eight digits whose value is the date's ordinal. */
  function DateStamp(d: CalendarDate): (s: string)
    ensures |s| == 8 && AllDigits(s)
    ensures DecimalValue(s) == Ordinal(d)
  {
    var y, m, dd := ZeroPadded(d.year, 4), ZeroPadded(d.month, 2), ZeroPadded(d.day, 2);
    assert Pow10(2) == 100 && Pow10(4) == 10000;
    ValueConcat(y, m);
    ValueConcat(y + m, dd);
    y + m + dd
  }

  /** The file `_write_buffer_to_disk` appends to on a given day. */
  function LogFileName(d: CalendarDate): (name: string)
    ensures '/' !in name
    ensures IsLogFileName(name)
  {
    var name := LogFilePrefix + DateStamp(d) + CsvSuffix;
    assert name[|name| - 4..] == CsvSuffix;
    name
  }

  /** The names `_cleanup_old_logs` considers: prefix `dbus_log_`, suffix `.csv`. */
  predicate IsLogFileName(name: string)
  {
    LogFilePrefix <= name && EndsWith(name, CsvSuffix)
  }
}
