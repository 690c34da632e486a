/** The export filters of lib/python/pycstbox/dwh/filters.py: the events filter, which writes
    one tab-separated series file per variable, and the variable definitions filter, which
    renders the device configuration as a table of variable definitions. Time stamps arrive
    already formatted; the output directory is a `Storage.FileStore`. */
module Filters {
  import opened Wrappers
  import opened Text
  import Storage

  /** `VAR_DEFS_FORMAT_VERSION`, the version both file headers carry. */
  const FormatVersion := "1"
  /** The only unit whose events are exported. */
  const Kwh := "kWh"

  /** A Python value that is neither `None` nor the empty string. */
  predicate Truthy(s: Option<string>)
  {
    s.Some? && s.value != ""
  }

  /** `self._contact if self._contact else ''` */
  function FeedbackTo(contact: Option<string>): string
  {
    if contact.Some? then contact.value else ""
  }

  // ---------------------------------------------------------------------------------------
  // Value mappers

  /** `_BOOL_TO_NUM.get(value.lower(), value)` */
  function MaybeBoolean(v: string): (r: string)
    ensures r == v || r == "1" || r == "0"
  {
    var l := Lower(v);
    if l == "true" then "1" else if l == "false" then "0" else v
  }

  /** `str` of a Python boolean */
  function BoolStr(b: bool): string
  {
    if b then "True" else "False"
  }

  /** Boolean values, rendered by `str`, are exported as 1 and 0, whatever their case. */
  lemma MaybeBooleanOfBool(b: bool)
    ensures MaybeBoolean(BoolStr(b)) == (if b then "1" else "0")
  {
    if b {
      assert Lower("True") == "true";
    } else {
      assert Lower("False") == "false";
    }
  }

  /** Mapping a value twice is mapping it once. */
  lemma MaybeBooleanIdempotent(v: string)
    ensures MaybeBoolean(MaybeBoolean(v)) == MaybeBoolean(v)
  {
    var r := MaybeBoolean(v);
    if r == "1" || r == "0" {
      assert Lower(r) == r;
      assert Lower(r) != "true" && Lower(r) != "false" by {
        assert |Lower(r)| == 1;
      }
    }
  }

  /** `_TEXT_TYPES`, empty. */
  const TextTypes: seq<string> := []
  /** `_LOGICAL_TYPES` */
  const LogicalTypes: seq<string> := ["opened", "motion_detection", "motion", "presence"]

  /** `vartype_to_valuetype`: 'T' for a text type, 'L' for a logical type, 'N' otherwise. */
  function VartypeToValuetype(vartype: string): (r: string)
    ensures r == "L" <==> vartype in LogicalTypes
    ensures r == "L" || r == "N"
  {
    if vartype in TextTypes then "T" else if vartype in LogicalTypes then "L" else "N"
  }

  // ---------------------------------------------------------------------------------------
  // Events export

  datatype EventsExportFilter = EventsExportFilter(siteCode: string, contact: Option<string>, prefixWithType: bool)

  /** `EventsExportFilter.__init__`: the site code is mandatory. */
  function NewEventsExportFilter(siteCode: Option<string>, contact: Option<string>, prefixWithType: bool): (r: Result<EventsExportFilter>)
    ensures r.Ok? <==> Truthy(siteCode)
    ensures r.Err? ==> r.error == ValueError
    ensures r.Ok? ==> r.value.siteCode == siteCode.value && r.value.contact == contact && r.value.prefixWithType == prefixWithType
  {
    if Truthy(siteCode) then Ok(EventsExportFilter(siteCode.value, contact, prefixWithType)) else Err(ValueError)
  }

  /** An event: `timestamp` is already formatted as `DTFMT_POINT`; `unit` and `value` are the
      entries of its data dictionary (`None` when missing), `value` already rendered by `str`. */
  datatype Event = Event(timestamp: string, varType: string, varName: string, unit: Option<string>, value: Option<string>)

  predicate IsEnergy(e: Event)
  {
    e.unit == Some(Kwh)
  }

  /** `SERIES_NAME_PATTERN % (var_type, var_name)` or the bare variable name. */
  function SeriesName(f: EventsExportFilter, e: Event): string
  {
    if f.prefixWithType then e.varType + "_" + e.varName else e.varName
  }

  /** `series_filename`: `SERIES_FILENAME_PATTERN % (varname, stamp)`, where `stamp` is the
      export time formatted as `DTFMT_SERIES_FNAME`. */
  function SeriesFilename(varname: string, stamp: string): (r: string)
    ensures |r| == |varname| + |stamp| + 5
    ensures r[..|varname|] == varname && r[|r| - 4..] == ".csv"
  {
    varname + "." + stamp + ".csv"
  }

  /** For one export time, different series get different file names. */
  lemma SeriesFilenameInjective(a: string, b: string, stamp: string)
    requires SeriesFilename(a, stamp) == SeriesFilename(b, stamp)
    ensures a == b
  {
    assert |a| == |b|;
    assert a == SeriesFilename(a, stamp)[..|a|];
  }

  /** `os.path.join(dir, name)` on POSIX. */
  function PathJoin(dir: string, name: string): string
  {
    if name != [] && name[0] == '/' then name
    else if dir == [] || dir[|dir| - 1] == '/' then dir + name
    else dir + "/" + name
  }

  /** A name that `os.path.join` appends to the directory rather than taking as is. */
  predicate Relative(name: string)
  {
    name == [] || name[0] != '/'
  }

  /** The arguments of one `export_events` call, with the clock readings it makes. */
  datatype ExportCall = ExportCall(filter: EventsExportFilter, toDir: string, exportStamp: string, now: string)

  function OutPath(c: ExportCall, name: string): string
  {
    PathJoin(c.toDir, SeriesFilename(name, c.exportStamp))
  }

  /** Relative series names never share a file. */
  lemma OutPathInjective(c: ExportCall, a: string, b: string)
    requires Relative(a) && Relative(b)
    requires OutPath(c, a) == OutPath(c, b)
    ensures a == b
  {
    var fa, fb := SeriesFilename(a, c.exportStamp), SeriesFilename(b, c.exportStamp);
    assert fa[0] != '/' && fb[0] != '/' by {
      if a != [] { assert fa[0] == a[0]; }
      if b != [] { assert fb[0] == b[0]; }
    }
    var dir := if c.toDir == [] || c.toDir[|c.toDir| - 1] == '/' then c.toDir else c.toDir + "/";
    assert OutPath(c, a) == dir + fa && OutPath(c, b) == dir + fb;
    assert fa == (dir + fa)[|dir|..] && fb == (dir + fb)[|dir|..];
    SeriesFilenameInjective(a, b, c.exportStamp);
  }

  /** The five tab-keyed lines of a series header. */
  function HeaderFields(f: EventsExportFilter, varname: string, now: string): seq<string>
  {
    [ "FORMAT_VERSION\t" + FormatVersion,
      "CREATION_DATE\t" + now,
      "ID_SITE\t" + f.siteCode,
      "FEEDBACK_TO\t" + FeedbackTo(f.contact),
      "VARNAME\t" + varname ]
  }

  /** `_emit_series_header`: the header lines and a final line end, joined by line ends. */
  function SeriesHeader(f: EventsExportFilter, varname: string, now: string): (r: string)
    ensures |r| >= 18
    ensures r[..16] == "FORMAT_VERSION\t" + FormatVersion
    ensures r[|r| - 2..] == "\n\n"
  {
    var hs := HeaderFields(f, varname, now);
    JoinSnoc(hs, "\n", '\n');
    var rest := Join(hs[1..], '\n');
    assert Join(hs, '\n') == hs[0] + "\n" + rest;
    var r := hs[0] + "\n" + rest + "\n" + "\n";
    assert Join(hs + ["\n"], '\n') == r;
    assert r[..16] == hs[0];
    Join(hs + ["\n"], '\n')
  }

  lemma NoNewlineInField(f: EventsExportFilter, varname: string, now: string, k: nat)
    requires '\n' !in f.siteCode && '\n' !in FeedbackTo(f.contact) && '\n' !in varname && '\n' !in now
    requires k < 5
    ensures '\n' !in HeaderFields(f, varname, now)[k]
  {
  }

  /** A series header is its five lines followed by a blank line. */
  lemma SeriesHeaderLines(f: EventsExportFilter, varname: string, now: string)
    requires '\n' !in f.siteCode && '\n' !in FeedbackTo(f.contact) && '\n' !in varname && '\n' !in now
    ensures Split(SeriesHeader(f, varname, now), '\n') == HeaderFields(f, varname, now) + ["", ""]
  {
    var hs := HeaderFields(f, varname, now);
    var j := Join(hs, '\n');
    JoinSnoc(hs, "\n", '\n');
    JoinSnoc(hs, "", '\n');
    JoinSnoc(hs + [""], "", '\n');
    assert hs + [""] + [""] == hs + ["", ""];
    assert Join(hs + ["", ""], '\n') == j + "\n" + "\n";
    assert SeriesHeader(f, varname, now) == j + "\n" + "\n";
    var all := hs + ["", ""];
    forall k | 0 <= k < |all| ensures '\n' !in all[k] {
      if k < |hs| { NoNewlineInField(f, varname, now, k); }
    }
    SplitJoin(all, '\n');
  }

  /** The record a point adds to its series file. */
  function PointLine(timestamp: string, value: string): string
  {
    timestamp + "\t" + MaybeBoolean(value) + "\n"
  }

  /** The state `export_events` builds: the output directory's files, the open series files by
      series name, the created paths and the event count. */
  datatype ExportState = ExportState(files: map<string, string>, seriesFiles: map<string, string>, created: seq<string>, count: nat)

  /** Either still iterating, or stopped by an exception that left the files as they were. */
  datatype ExportRun = Running(st: ExportState) | Raised(st: ExportState, error: Error)

  /** Every open series file exists and is among the created ones. */
  predicate Consistent(st: ExportState)
  {
    forall n :: n in st.seriesFiles ==> st.seriesFiles[n] in st.files && st.seriesFiles[n] in st.created
  }

  /** One iteration of the events loop. */
  function Step(c: ExportCall, st: ExportState, e: Event): (r: ExportRun)
    requires Consistent(st)
    ensures Consistent(r.st)
  {
    match e.unit
    case None => Raised(st, KeyError)
    case Some(u) =>
      if u != Kwh then Running(st)
      else
        var name := SeriesName(c.filter, e);
        var st1 :=
          if name in st.seriesFiles then st.(count := st.count + 1)
          else
            var path := OutPath(c, name);
            ExportState(st.files[path := SeriesHeader(c.filter, name, c.now)], st.seriesFiles[name := path],
                        st.created + [path], st.count + 1);
        match e.value
        case None => Raised(st1, KeyError)
        case Some(v) =>
          var path := st1.seriesFiles[name];
          Running(st1.(files := st1.files[path := st1.files[path] + PointLine(e.timestamp, v)]))
  }

  /** The events loop over `events`, starting from the files `files0`. */
  function Exported(c: ExportCall, files0: map<string, string>, events: seq<Event>): (r: ExportRun)
    ensures Consistent(r.st)
  {
    if events == [] then Running(ExportState(files0, map[], [], 0))
    else
      match Exported(c, files0, events[..|events| - 1])
      case Raised(st, err) => Raised(st, err)
      case Running(st) => Step(c, st, events[|events| - 1])
  }

  /** Once an exception is raised, the remaining events change nothing. */
  lemma {:induction false} RaisedStays(c: ExportCall, files0: map<string, string>, events: seq<Event>, k: nat)
    requires k <= |events| && Exported(c, files0, events[..k]).Raised?
    ensures Exported(c, files0, events) == Exported(c, files0, events[..k])
  {
    if k < |events| {
      assert events[..|events| - 1][..k] == events[..k];
      RaisedStays(c, files0, events[..|events| - 1], k);
    } else {
      assert events[..k] == events;
    }
  }

  /** An event the loop gets through: it has a unit, and a value when its unit is kWh. */
  predicate Readable(e: Event)
  {
    e.unit.Some? && (e.unit.value == Kwh ==> e.value.Some?)
  }

  predicate AllReadable(events: seq<Event>)
  {
    forall i :: 0 <= i < |events| ==> Readable(events[i])
  }

  /** The loop raises, and then always `KeyError`, exactly when some event is not readable. */
  lemma {:induction false} ExportedRaisesIff(c: ExportCall, files0: map<string, string>, events: seq<Event>)
    ensures Exported(c, files0, events).Raised? <==> !AllReadable(events)
    ensures Exported(c, files0, events).Raised? ==> Exported(c, files0, events).error == KeyError
  {
    if events != [] {
      var pre := events[..|events| - 1];
      ExportedRaisesIff(c, files0, pre);
      assert forall i :: 0 <= i < |pre| ==> pre[i] == events[i];
    }
  }

  /** The number of kWh events. */
  function EnergyCount(events: seq<Event>): nat
  {
    if events == [] then 0
    else EnergyCount(events[..|events| - 1]) + (if IsEnergy(events[|events| - 1]) then 1 else 0)
  }

  /** The returned count is the number of kWh events; other events are skipped. */
  lemma {:induction false} ExportedCount(c: ExportCall, files0: map<string, string>, events: seq<Event>)
    requires Exported(c, files0, events).Running?
    ensures Exported(c, files0, events).st.count == EnergyCount(events)
  {
    if events != [] {
      ExportedCount(c, files0, events[..|events| - 1]);
    }
  }

  /** The series names of the kWh events, each once, in order of first appearance. */
  function SeriesNames(f: EventsExportFilter, events: seq<Event>): seq<string>
  {
    if events == [] then []
    else
      var names := SeriesNames(f, events[..|events| - 1]);
      var e := events[|events| - 1];
      if IsEnergy(e) && SeriesName(f, e) !in names then names + [SeriesName(f, e)] else names
  }

  predicate Distinct(xs: seq<string>)
  {
    forall i, j :: 0 <= i < j < |xs| ==> xs[i] != xs[j]
  }

  /** `SeriesNames` lists every series of a kWh event, and nothing else, without repetition. */
  lemma {:induction false} SeriesNamesSpec(f: EventsExportFilter, events: seq<Event>)
    ensures Distinct(SeriesNames(f, events))
    ensures forall n :: n in SeriesNames(f, events) <==>
              exists i :: 0 <= i < |events| && IsEnergy(events[i]) && SeriesName(f, events[i]) == n
  {
    if events != [] {
      var pre := events[..|events| - 1];
      SeriesNamesSpec(f, pre);
      assert forall i :: 0 <= i < |pre| ==> pre[i] == events[i];
    }
  }

  /** One series file per distinct series name, created at the series' first kWh event, and
      listed in `created` in that order. */
  lemma {:induction false} ExportedSeries(c: ExportCall, files0: map<string, string>, events: seq<Event>)
    requires Exported(c, files0, events).Running?
    ensures var st := Exported(c, files0, events).st;
            var names := SeriesNames(c.filter, events);
            |st.created| == |names| &&
            (forall k :: 0 <= k < |names| ==> st.created[k] == OutPath(c, names[k])) &&
            (forall n :: n in st.seriesFiles <==> n in names) &&
            (forall n :: n in st.seriesFiles ==> st.seriesFiles[n] == OutPath(c, n))
  {
    if events != [] {
      ExportedSeries(c, files0, events[..|events| - 1]);
    }
  }

  /** The points a series file receives: one record per kWh event of that series. */
  function Points(f: EventsExportFilter, events: seq<Event>, name: string): string
  {
    if events == [] then ""
    else
      var e := events[|events| - 1];
      Points(f, events[..|events| - 1], name) +
        (if IsEnergy(e) && e.value.Some? && SeriesName(f, e) == name then PointLine(e.timestamp, e.value.value) else "")
  }

  lemma {:induction false} PointsUnseen(f: EventsExportFilter, events: seq<Event>, name: string)
    requires name !in SeriesNames(f, events)
    ensures Points(f, events, name) == ""
  {
    if events != [] {
      PointsUnseen(f, events[..|events| - 1], name);
    }
  }

  /** Series names that `os.path.join` keeps inside the output directory. */
  predicate RelativeNames(f: EventsExportFilter, events: seq<Event>)
  {
    forall i :: 0 <= i < |events| && IsEnergy(events[i]) ==> Relative(SeriesName(f, events[i]))
  }

  /** The loop writes only series files: every other file keeps its content, and no file
      other than a created one appears. */
  lemma {:induction false} ExportedKeepsOtherFiles(c: ExportCall, files0: map<string, string>, events: seq<Event>)
    ensures var st := Exported(c, files0, events).st;
            (forall p :: p in files0 && p !in st.created ==> p in st.files && st.files[p] == files0[p]) &&
            (forall p :: p in st.files ==> p in files0 || p in st.created)
  {
    if events != [] {
      var pre := events[..|events| - 1];
      ExportedKeepsOtherFiles(c, files0, pre);
    }
  }

  lemma {:induction false} SeriesNamesRelative(f: EventsExportFilter, events: seq<Event>)
    requires RelativeNames(f, events)
    ensures forall n :: n in SeriesNames(f, events) ==> Relative(n)
  {
    if events != [] {
      var pre := events[..|events| - 1];
      assert RelativeNames(f, pre) by {
        assert forall i :: 0 <= i < |pre| ==> pre[i] == events[i];
      }
      SeriesNamesRelative(f, pre);
    }
  }

  /** The file of every series listed in `names` holds its header and the points of `events`. */
  predicate SeriesContents(c: ExportCall, header: string -> string, files: map<string, string>, names: seq<string>,
                           events: seq<Event>)
  {
    forall n :: n in names ==>
      OutPath(c, n) in files && files[OutPath(c, n)] == header(n) + Points(c.filter, events, n)
  }

  /** The header `_emit_series_header` writes for each series of a call. */
  function Headers(c: ExportCall): string -> string
  {
    n => SeriesHeader(c.filter, n, c.now)
  }

  /** The files after a kWh event with a value: its series file is created with its header
      when the series is not among `names`, then receives the point. */
  function AfterPoint(c: ExportCall, header: string -> string, files: map<string, string>, names: seq<string>, e: Event): map<string, string>
    requires e.value.Some?
    requires SeriesName(c.filter, e) in names ==> OutPath(c, SeriesName(c.filter, e)) in files
  {
    var m := SeriesName(c.filter, e);
    var pm := OutPath(c, m);
    var files1 := if m !in names then files[pm := header(m)] else files;
    files1[pm := files1[pm] + PointLine(e.timestamp, e.value.value)]
  }

  lemma PointsSnoc(f: EventsExportFilter, pre: seq<Event>, e: Event)
    requires IsEnergy(e) && e.value.Some?
    ensures Points(f, pre + [e], SeriesName(f, e)) == Points(f, pre, SeriesName(f, e)) + PointLine(e.timestamp, e.value.value)
  {
    assert (pre + [e])[..|pre|] == pre;
  }

  lemma AfterPointAt(c: ExportCall, header: string -> string, files: map<string, string>, names: seq<string>, e: Event)
    requires e.value.Some?
    requires SeriesName(c.filter, e) in names ==> OutPath(c, SeriesName(c.filter, e)) in files
    ensures var m := SeriesName(c.filter, e);
            var after := AfterPoint(c, header, files, names, e);
            OutPath(c, m) in after &&
            after[OutPath(c, m)] ==
              (if m in names then files[OutPath(c, m)] else header(m)) + PointLine(e.timestamp, e.value.value)
  {
  }

  /** The series of the event gets its header, if new, and its point. */
  lemma PointContentOwn(c: ExportCall, header: string -> string, files: map<string, string>, pre: seq<Event>, e: Event)
    requires IsEnergy(e) && e.value.Some?
    requires var m := SeriesName(c.filter, e);
             m in SeriesNames(c.filter, pre) ==>
               OutPath(c, m) in files &&
               files[OutPath(c, m)] == header(m) + Points(c.filter, pre, m)
    ensures var m := SeriesName(c.filter, e);
            var after := AfterPoint(c, header, files, SeriesNames(c.filter, pre), e);
            OutPath(c, m) in after &&
            after[OutPath(c, m)] == header(m) + Points(c.filter, pre + [e], m)
  {
    var m := SeriesName(c.filter, e);
    var names := SeriesNames(c.filter, pre);
    var before := Points(c.filter, pre, m);
    var line := PointLine(e.timestamp, e.value.value);
    PointsSnoc(c.filter, pre, e);
    AfterPointAt(c, header, files, names, e);
    if m !in names {
      PointsUnseen(c.filter, pre, m);
      AppendEmpty(header(m), line);
    } else {
      AppendAssoc(header(m), before, line);
    }
  }

  lemma AppendAssoc(a: string, b: string, c: string)
    ensures a + b + c == a + (b + c)
  {
  }

  lemma AppendEmpty(a: string, c: string)
    ensures a + ("" + c) == a + c
  {
    assert "" + c == c;
  }

  /** The files of the other series are untouched, and so are their points. */
  lemma PointContentOthers(c: ExportCall, header: string -> string, files: map<string, string>, pre: seq<Event>, e: Event)
    requires IsEnergy(e) && e.value.Some?
    requires SeriesName(c.filter, e) in SeriesNames(c.filter, pre) ==> OutPath(c, SeriesName(c.filter, e)) in files
    requires forall n :: n in SeriesNames(c.filter, pre) ==> Relative(n)
    requires Relative(SeriesName(c.filter, e))
    requires SeriesContents(c, header, files, SeriesNames(c.filter, pre), pre)
    ensures var m := SeriesName(c.filter, e);
            var after := AfterPoint(c, header, files, SeriesNames(c.filter, pre), e);
            forall n :: n in SeriesNames(c.filter, pre) && n != m ==>
              OutPath(c, n) in after &&
              after[OutPath(c, n)] == header(n) + Points(c.filter, pre + [e], n)
  {
    var m := SeriesName(c.filter, e);
    var events := pre + [e];
    assert events[..|events| - 1] == pre;
    forall n | n in SeriesNames(c.filter, pre) && n != m
      ensures OutPath(c, n) != OutPath(c, m)
      ensures Points(c.filter, events, n) == Points(c.filter, pre, n)
    {
      if OutPath(c, n) == OutPath(c, m) {
        OutPathInjective(c, n, m);
      }
      assert Points(c.filter, events, n) == Points(c.filter, pre, n) + "";
    }
  }

  /** One kWh event extends the file of its series by its point and touches no other series. */
  lemma StepContent(c: ExportCall, header: string -> string, files: map<string, string>, pre: seq<Event>, e: Event)
    requires IsEnergy(e) && e.value.Some?
    requires SeriesName(c.filter, e) in SeriesNames(c.filter, pre) ==> OutPath(c, SeriesName(c.filter, e)) in files
    requires forall n :: n in SeriesNames(c.filter, pre) ==> Relative(n)
    requires Relative(SeriesName(c.filter, e))
    requires SeriesContents(c, header, files, SeriesNames(c.filter, pre), pre)
    ensures SeriesContents(c, header, AfterPoint(c, header, files, SeriesNames(c.filter, pre), e),
                           SeriesNames(c.filter, pre + [e]), pre + [e])
  {
    var events := pre + [e];
    assert events[..|events| - 1] == pre;
    PointContentOwn(c, header, files, pre, e);
    PointContentOthers(c, header, files, pre, e);
  }

  /** Other events leave every series file and its points as they were. */
  lemma OtherStepContent(c: ExportCall, header: string -> string, st0: ExportState, pre: seq<Event>, e: Event)
    requires Consistent(st0) && Step(c, st0, e).Running? && !IsEnergy(e)
    requires SeriesContents(c, header, st0.files, SeriesNames(c.filter, pre), pre)
    ensures SeriesContents(c, header, Step(c, st0, e).st.files, SeriesNames(c.filter, pre + [e]), pre + [e])
  {
    var events := pre + [e];
    assert events[..|events| - 1] == pre;
    forall n | n in SeriesNames(c.filter, events)
      ensures Points(c.filter, events, n) == Points(c.filter, pre, n)
    {
      assert Points(c.filter, events, n) == Points(c.filter, pre, n) + "";
    }
  }

  /** When no series name is absolute, each series file holds its header followed by the points
      of its series, in event order. */
  lemma {:induction false} ExportedContent(c: ExportCall, files0: map<string, string>, events: seq<Event>)
    requires Exported(c, files0, events).Running?
    requires RelativeNames(c.filter, events)
    ensures SeriesContents(c, Headers(c), Exported(c, files0, events).st.files, SeriesNames(c.filter, events), events)
  {
    if events != [] {
      var pre := events[..|events| - 1];
      var e := events[|events| - 1];
      assert events == pre + [e];
      assert RelativeNames(c.filter, pre) by {
        assert forall i :: 0 <= i < |pre| ==> pre[i] == events[i];
      }
      ExportedContent(c, files0, pre);
      var st0 := Exported(c, files0, pre).st;
      assert Exported(c, files0, events) == Step(c, st0, e);
      if IsEnergy(e) {
        ExportedSeries(c, files0, pre);
        SeriesNamesRelative(c.filter, pre);
        var m := SeriesName(c.filter, e);
        assert m in st0.seriesFiles <==> m in SeriesNames(c.filter, pre);
        assert Exported(c, files0, events).st.files == AfterPoint(c, Headers(c), st0.files, SeriesNames(c.filter, pre), e);
        StepContent(c, Headers(c), st0.files, pre, e);
      } else {
        OtherStepContent(c, Headers(c), st0, pre, e);
      }
    }
  }

  /** `export_events`: an empty directory raises `ValueError` before anything is written;
      otherwise the loop leaves the files as `Exported` says and returns the event count and
      the created paths, unless an event raised `KeyError`. */
  method ExportEvents(c: ExportCall, events: seq<Event>, store: Storage.FileStore) returns (r: Result<(nat, seq<string>)>)
    modifies store`files
    ensures c.toDir == "" ==> r == Err(ValueError) && store.files == old(store.files)
    ensures c.toDir != "" ==>
              var run := Exported(c, old(store.files), events);
              store.files == run.st.files &&
              r == (if run.Running? then Ok((run.st.count, run.st.created)) else Err(run.error))
  {
    if c.toDir == "" {
      return Err(ValueError);
    }
    var seriesFiles: map<string, string> := map[];
    var created: seq<string> := [];
    var count: nat := 0;
    var i := 0;
    while i < |events|
      invariant 0 <= i <= |events|
      invariant Exported(c, old(store.files), events[..i]) == Running(ExportState(store.files, seriesFiles, created, count))
    {
      assert events[..i + 1][..i] == events[..i];
      var raised;
      raised, seriesFiles, created, count := ExportEvent(c, events[i], store, seriesFiles, created, count);
      if raised {
        RaisedStays(c, old(store.files), events, i + 1);
        return Err(KeyError);
      }
      i := i + 1;
    }
    assert events[..i] == events;
    r := Ok((count, created));
  }

  /** The body of the events loop for one event: skips an event of another unit, opens the
      series file on the first event of its series, then appends the point; `raised` reports
      the `KeyError` of a missing unit or value. */
  method ExportEvent(c: ExportCall, e: Event, store: Storage.FileStore, seriesFiles: map<string, string>,
                     created: seq<string>, count: nat)
    returns (raised: bool, seriesFiles': map<string, string>, created': seq<string>, count': nat)
    requires Consistent(ExportState(store.files, seriesFiles, created, count))
    modifies store`files
    ensures var st' := ExportState(store.files, seriesFiles', created', count');
            Step(c, ExportState(old(store.files), seriesFiles, created, count), e)
              == if raised then Raised(st', KeyError) else Running(st')
  {
    seriesFiles', created', count' := seriesFiles, created, count;
    if e.unit.None? {
      return true, seriesFiles', created', count';
    }
    if e.unit.value != Kwh {
      return false, seriesFiles', created', count';
    }
    count' := count + 1;
    var name := SeriesName(c.filter, e);
    if name !in seriesFiles {
      var path := OutPath(c, name);
      // opening with 'wt' truncates the file, then the header is written into it
      store.files := store.files[path := SeriesHeader(c.filter, name, c.now)];
      seriesFiles' := seriesFiles[name := path];
      created' := created + [path];
    }
    if e.value.None? {
      return true, seriesFiles', created', count';
    }
    var path := seriesFiles'[name];
    store.files := store.files[path := store.files[path] + PointLine(e.timestamp, e.value.value)];
    raised := false;
  }

  // ---------------------------------------------------------------------------------------
  // Variable definitions export

  datatype VariableDefsExportFilter = VariableDefsExportFilter(siteCode: string, contact: Option<string>)

  /** `VariableDefsExportFilter.__init__`: the site code is mandatory. */
  function NewVariableDefsExportFilter(siteCode: Option<string>, contact: Option<string>): (r: Result<VariableDefsExportFilter>)
    ensures r.Ok? <==> Truthy(siteCode)
    ensures r.Err? ==> r.error == ValueError
    ensures r.Ok? ==> r.value.siteCode == siteCode.value && r.value.contact == contact
  {
    if Truthy(siteCode) then Ok(VariableDefsExportFilter(siteCode.value, contact)) else Err(ValueError)
  }

  /** `_VarDef_attrs`, as its list of names. */
  const VarDefAttrs: seq<string> :=
    ["varname", "label", "type", "value_type", "units", "lower_bound", "upper_bound", "delta_min", "delta_max"]

  /** The named tuple `VariableDefinition`; `None` fields are `None` here too. */
  datatype VariableDefinition = VariableDefinition(
    varname: string, varLabel: string, vartype: string, valueType: string, units: Option<string>,
    lowerBound: Option<string>, upperBound: Option<string>, deltaMin: Option<string>, deltaMax: Option<string>)

  function OrEmpty(v: Option<string>): string
  {
    if v.Some? then v.value else ""
  }

  /** `as_strings`: the first four fields as they are, the other five with `None` as ''. */
  function AsStrings(d: VariableDefinition): (r: seq<string>)
    ensures |r| == |VarDefAttrs|
    ensures r[..4] == [d.varname, d.varLabel, d.vartype, d.valueType]
    ensures Join(r, '\t') == DefinitionRow(d)
  {
    assert [d.varname, d.varLabel, d.vartype, d.valueType] +
      [OrEmpty(d.units), OrEmpty(d.lowerBound), OrEmpty(d.upperBound), OrEmpty(d.deltaMin), OrEmpty(d.deltaMax)] ==
      [d.varname, d.varLabel, d.vartype, d.valueType, OrEmpty(d.units), OrEmpty(d.lowerBound),
       OrEmpty(d.upperBound), OrEmpty(d.deltaMin), OrEmpty(d.deltaMax)];
    [d.varname, d.varLabel, d.vartype, d.valueType] +
      [OrEmpty(d.units), OrEmpty(d.lowerBound), OrEmpty(d.upperBound), OrEmpty(d.deltaMin), OrEmpty(d.deltaMax)]
  }

  /** The row `export_devices_configuration` writes for a definition: its nine fields, `None`
      rendered as '', joined by tabs. */
  function DefinitionRow(d: VariableDefinition): string
  {
    Join([d.varname, d.varLabel, d.vartype, d.valueType, OrEmpty(d.units), OrEmpty(d.lowerBound),
          OrEmpty(d.upperBound), OrEmpty(d.deltaMin), OrEmpty(d.deltaMax)], '\t')
  }

  /** A definition whose fields hold no tab. */
  predicate NoTabs(d: VariableDefinition)
  {
    forall k :: 0 <= k < |AsStrings(d)| ==> '\t' !in AsStrings(d)[k]
  }

  /** A row splits back, at its tabs, into the nine strings of `as_strings`. */
  lemma DefinitionRowFields(d: VariableDefinition)
    requires NoTabs(d)
    ensures Split(DefinitionRow(d), '\t') == AsStrings(d)
  {
    assert AsStrings(d) == [d.varname, d.varLabel, d.vartype, d.valueType, OrEmpty(d.units), OrEmpty(d.lowerBound),
                            OrEmpty(d.upperBound), OrEmpty(d.deltaMin), OrEmpty(d.deltaMax)];
    SplitJoin(AsStrings(d), '\t');
  }

  /** The six header lines of the definitions file. */
  function ConfigurationHeader(f: VariableDefsExportFilter, now: string): seq<string>
  {
    [ "FORMAT_VERSION\t" + FormatVersion,
      "CREATION_DATE\t" + now,
      "ID_SITE\t" + f.siteCode,
      "FEEDBACK_TO\t" + FeedbackTo(f.contact),
      "",
      Replace(Join(VarDefAttrs, ' '), " ", "\t") ]
  }

  /** The last header line names the nine columns of the rows, separated by tabs. */
  lemma ConfigurationHeaderColumns(f: VariableDefsExportFilter, now: string)
    ensures ConfigurationHeader(f, now)[5] == Join(VarDefAttrs, '\t')
    ensures Split(ConfigurationHeader(f, now)[5], '\t') == VarDefAttrs
  {
    AttrNamesPlain();
    ReplaceJoinSeparator(VarDefAttrs, ' ', '\t');
    SplitJoin(VarDefAttrs, '\t');
  }

  lemma AttrNamesPlain()
    ensures forall k :: 0 <= k < |VarDefAttrs| ==> ' ' !in VarDefAttrs[k] && '\t' !in VarDefAttrs[k]
  {
  }

  /** An output of a multiple-output device; a missing `enabled` entry is `false`. */
  datatype Output = Output(enabled: bool, varname: Option<string>)

  /** A device configuration: `outputs` holds the (key, output) pairs of a multiple-output
      device in iteration order, `varname` the variable of a single-output device. */
  datatype Device = Device(enabled: bool, devType: string, outputs: Option<seq<(string, Output)>>, varname: Option<string>)

  /** The `__vartype__` and `__varunits__` entries of an output's metadata. */
  datatype OutputMeta = OutputMeta(vartype: Option<string>, varunits: Option<string>)

  /** The `pdefs` of a device type: its `outputs` map and its `root` entry, when present. */
  datatype DeviceMeta = DeviceMeta(outputs: Option<map<string, OutputMeta>>, root: Option<OutputMeta>)

  /** `v.get('enabled') and v.get('varname')` */
  predicate Selected(o: Output)
  {
    o.enabled && Truthy(o.varname)
  }

  /** `_make_variable_definition`: label = name, value type from the variable type, no bounds. */
  function MakeDefinition(varname: string, vartype: string, units: Option<string>): VariableDefinition
  {
    VariableDefinition(varname, varname, vartype, VartypeToValuetype(vartype), units, None, None, None, None)
  }

  /** The definitions built so far and `known_vars`. */
  datatype DefsState = DefsState(points: seq<VariableDefinition>, known: seq<string>)

  /** The metadata of output `k`: its own entry, else the generic '*' one; without either the
      lookup subscripts `None`, a `TypeError`. */
  function OutputMetaFor(metaOutputs: map<string, OutputMeta>, k: string): Result<OutputMeta>
  {
    if k in metaOutputs then Ok(metaOutputs[k])
    else if "*" in metaOutputs then Ok(metaOutputs["*"])
    else Err(TypeError)
  }

  /** Declares one variable: a name already declared raises `DataWareHouseException`; only then
      is its metadata looked up, and a missing `__vartype__` raises `KeyError`. */
  function AddVariable(st: DefsState, varname: string, meta: Result<OutputMeta>): Result<DefsState>
  {
    if varname in st.known then Err(DataWareHouseError(varname))
    else
      match meta
      case Err(e) => Err(e)
      case Ok(m) =>
        match m.vartype
        case None => Err(KeyError)
        case Some(t) => Ok(DefsState(st.points + [MakeDefinition(varname, t, m.varunits)], st.known + [varname]))
  }

  /** The loop over the outputs of a multiple-output device. */
  function AddOutputs(st: DefsState, metaOutputs: map<string, OutputMeta>, outs: seq<(string, Output)>): Result<DefsState>
  {
    if outs == [] then Ok(st)
    else
      match AddOutputs(st, metaOutputs, outs[..|outs| - 1])
      case Err(e) => Err(e)
      case Ok(st1) =>
        var (k, o) := outs[|outs| - 1];
        if Selected(o) then AddVariable(st1, o.varname.value, OutputMetaFor(metaOutputs, k)) else Ok(st1)
  }

  /** One iteration of the device loop; `catalog` stands for `Metadata.device`. */
  function AddDevice(st: DefsState, catalog: map<string, DeviceMeta>, d: Device): Result<DefsState>
  {
    if !d.enabled then Ok(st)
    else if d.devType !in catalog then Err(MetadataError)
    else
      var pdefs := catalog[d.devType];
      match d.outputs
      case Some(outs) =>
        if pdefs.outputs.None? then Err(KeyError) else AddOutputs(st, pdefs.outputs.value, outs)
      case None =>
        match d.varname
        case None => Ok(st)
        case Some(v) => AddVariable(st, v, if pdefs.root.Some? then Ok(pdefs.root.value) else Err(KeyError))
  }

  /** `_make_variable_definitions` over `devices`. */
  function Definitions(catalog: map<string, DeviceMeta>, devices: seq<Device>): Result<DefsState>
  {
    if devices == [] then Ok(DefsState([], []))
    else
      match Definitions(catalog, devices[..|devices| - 1])
      case Err(e) => Err(e)
      case Ok(st) => AddDevice(st, catalog, devices[|devices| - 1])
  }

  /** The variable names a list of outputs declares, in order. */
  function OutputNames(outs: seq<(string, Output)>): seq<string>
  {
    if outs == [] then []
    else
      var o := outs[|outs| - 1].1;
      OutputNames(outs[..|outs| - 1]) + (if Selected(o) then [o.varname.value] else [])
  }

  /** The variable names a device declares. */
  function DeviceNames(d: Device): seq<string>
  {
    if !d.enabled then []
    else if d.outputs.Some? then OutputNames(d.outputs.value)
    else if d.varname.Some? then [d.varname.value]
    else []
  }

  /** The variable names the devices declare, in order. */
  function DeclaredNames(devices: seq<Device>): seq<string>
  {
    if devices == [] then [] else DeclaredNames(devices[..|devices| - 1]) + DeviceNames(devices[|devices| - 1])
  }

  /** A definition `_make_variable_definition` builds for `name`. */
  predicate WellMade(d: VariableDefinition, name: string)
  {
    d.varname == name && d.varLabel == name && d.valueType == VartypeToValuetype(d.vartype) &&
    d.lowerBound.None? && d.upperBound.None? && d.deltaMin.None? && d.deltaMax.None?
  }

  /** The definitions match the known names one to one, and no name is known twice. */
  predicate Coherent(st: DefsState)
  {
    |st.points| == |st.known| && Distinct(st.known) &&
    forall i :: 0 <= i < |st.points| ==> WellMade(st.points[i], st.known[i])
  }

  lemma AddVariableSpec(st: DefsState, varname: string, meta: Result<OutputMeta>)
    requires Coherent(st)
    ensures varname in st.known ==> AddVariable(st, varname, meta) == Err(DataWareHouseError(varname))
    ensures AddVariable(st, varname, meta).Ok? ==>
              Coherent(AddVariable(st, varname, meta).value) &&
              AddVariable(st, varname, meta).value.known == st.known + [varname]
  {
  }

  lemma {:induction false} AddOutputsSpec(st: DefsState, metaOutputs: map<string, OutputMeta>, outs: seq<(string, Output)>)
    requires Coherent(st)
    ensures AddOutputs(st, metaOutputs, outs).Ok? ==>
              Coherent(AddOutputs(st, metaOutputs, outs).value) &&
              AddOutputs(st, metaOutputs, outs).value.known == st.known + OutputNames(outs)
  {
    if outs != [] {
      var pre := outs[..|outs| - 1];
      AddOutputsSpec(st, metaOutputs, pre);
      var r := AddOutputs(st, metaOutputs, pre);
      if r.Ok? {
        var (k, o) := outs[|outs| - 1];
        if Selected(o) {
          AddVariableSpec(r.value, o.varname.value, OutputMetaFor(metaOutputs, k));
        }
      }
    }
  }

  lemma AddDeviceSpec(st: DefsState, catalog: map<string, DeviceMeta>, d: Device)
    requires Coherent(st)
    ensures AddDevice(st, catalog, d).Ok? ==>
              Coherent(AddDevice(st, catalog, d).value) &&
              AddDevice(st, catalog, d).value.known == st.known + DeviceNames(d)
  {
    if d.enabled && d.devType in catalog {
      var pdefs := catalog[d.devType];
      if d.outputs.Some? {
        if pdefs.outputs.Some? {
          AddOutputsSpec(st, pdefs.outputs.value, d.outputs.value);
        }
      } else if d.varname.Some? {
        AddVariableSpec(st, d.varname.value, if pdefs.root.Some? then Ok(pdefs.root.value) else Err(KeyError));
      } else {
        assert st.known + [] == st.known;
      }
    } else if !d.enabled {
      assert st.known + [] == st.known;
    }
  }

  /** A successful run defines each declared variable once, in declaration order, with its
      name as label, the value type of its variable type, and no bounds. */
  lemma {:induction false} DefinitionsSpec(catalog: map<string, DeviceMeta>, devices: seq<Device>)
    ensures Definitions(catalog, devices).Ok? ==>
              Coherent(Definitions(catalog, devices).value) &&
              Definitions(catalog, devices).value.known == DeclaredNames(devices)
  {
    if devices != [] {
      var pre := devices[..|devices| - 1];
      DefinitionsSpec(catalog, pre);
      var r := Definitions(catalog, pre);
      if r.Ok? {
        AddDeviceSpec(r.value, catalog, devices[|devices| - 1]);
      }
    }
  }

  /** A variable declared twice, by any two enabled outputs or devices, makes the export fail. */
  lemma DuplicateRejected(catalog: map<string, DeviceMeta>, devices: seq<Device>)
    requires !Distinct(DeclaredNames(devices))
    ensures Definitions(catalog, devices).Err?
  {
    DefinitionsSpec(catalog, devices);
  }

  /** Everything `_make_variable_definitions` looks up for a device is there. */
  predicate Resolvable(catalog: map<string, DeviceMeta>, d: Device)
  {
    !d.enabled ||
    (d.devType in catalog &&
     var pdefs := catalog[d.devType];
     match d.outputs
     case Some(outs) =>
       pdefs.outputs.Some? &&
       forall j :: 0 <= j < |outs| && Selected(outs[j].1) ==>
         OutputMetaFor(pdefs.outputs.value, outs[j].0).Ok? &&
         OutputMetaFor(pdefs.outputs.value, outs[j].0).value.vartype.Some?
     case None => d.varname.Some? ==> pdefs.root.Some? && pdefs.root.value.vartype.Some?)
  }

  lemma DistinctSplit(a: seq<string>, b: seq<string>)
    requires Distinct(a + b)
    ensures Distinct(a) && Distinct(b) && forall x :: x in b ==> x !in a
  {
    forall x | x in b ensures x !in a {
      var j :| 0 <= j < |b| && b[j] == x;
      assert (a + b)[|a| + j] == x;
      assert forall i :: 0 <= i < |a| ==> (a + b)[i] == a[i];
    }
    forall i, j | 0 <= i < j < |b| ensures b[i] != b[j] {
      assert (a + b)[|a| + i] == b[i] && (a + b)[|a| + j] == b[j];
    }
    forall i, j | 0 <= i < j < |a| ensures a[i] != a[j] {
      assert (a + b)[i] == a[i] && (a + b)[j] == a[j];
    }
  }

  lemma {:induction false} AddOutputsSucceeds(st: DefsState, metaOutputs: map<string, OutputMeta>, outs: seq<(string, Output)>)
    requires Coherent(st)
    requires Distinct(st.known + OutputNames(outs))
    requires forall j :: 0 <= j < |outs| && Selected(outs[j].1) ==>
               OutputMetaFor(metaOutputs, outs[j].0).Ok? && OutputMetaFor(metaOutputs, outs[j].0).value.vartype.Some?
    ensures AddOutputs(st, metaOutputs, outs).Ok?
  {
    if outs != [] {
      var pre := outs[..|outs| - 1];
      var (k, o) := outs[|outs| - 1];
      var tail := if Selected(o) then [o.varname.value] else [];
      assert st.known + OutputNames(outs) == (st.known + OutputNames(pre)) + tail;
      DistinctSplit(st.known + OutputNames(pre), tail);
      assert forall j :: 0 <= j < |pre| ==> pre[j] == outs[j];
      AddOutputsSucceeds(st, metaOutputs, pre);
      AddOutputsSpec(st, metaOutputs, pre);
    }
  }

  lemma AddDeviceSucceeds(st: DefsState, catalog: map<string, DeviceMeta>, d: Device)
    requires Coherent(st) && Distinct(st.known + DeviceNames(d)) && Resolvable(catalog, d)
    ensures AddDevice(st, catalog, d).Ok?
  {
    if d.enabled && d.outputs.Some? {
      AddOutputsSucceeds(st, catalog[d.devType].outputs.value, d.outputs.value);
    } else if d.enabled && d.varname.Some? {
      DistinctSplit(st.known, [d.varname.value]);
    }
  }

  /** The definitions are built exactly when the declared names are distinct and every enabled
      device finds its metadata, its outputs' metadata and their variable types. */
  lemma {:induction false} DefinitionsSucceedIff(catalog: map<string, DeviceMeta>, devices: seq<Device>)
    ensures Definitions(catalog, devices).Ok? <==>
              Distinct(DeclaredNames(devices)) && forall i :: 0 <= i < |devices| ==> Resolvable(catalog, devices[i])
  {
    if devices != [] {
      var pre := devices[..|devices| - 1];
      var d := devices[|devices| - 1];
      DefinitionsSucceedIff(catalog, pre);
      DefinitionsSpec(catalog, pre);
      DefinitionsSpec(catalog, devices);
      assert forall i :: 0 <= i < |pre| ==> pre[i] == devices[i];
      if Distinct(DeclaredNames(devices)) && forall i :: 0 <= i < |devices| ==> Resolvable(catalog, devices[i]) {
        DistinctSplit(DeclaredNames(pre), DeviceNames(d));
        AddDeviceSucceeds(Definitions(catalog, pre).value, catalog, d);
      }
      if Definitions(catalog, devices).Ok? {
        assert Definitions(catalog, pre).Ok?;
        DistinctSplit(DeclaredNames(pre), DeviceNames(d));
        assert Resolvable(catalog, d) by {
          AddDeviceResolvable(Definitions(catalog, pre).value, catalog, d);
        }
      }
    }
  }

  lemma AddDeviceResolvable(st: DefsState, catalog: map<string, DeviceMeta>, d: Device)
    requires AddDevice(st, catalog, d).Ok?
    ensures Resolvable(catalog, d)
  {
    if d.enabled && d.outputs.Some? {
      AddOutputsResolvable(st, catalog[d.devType].outputs.value, d.outputs.value);
    }
  }

  lemma {:induction false} AddOutputsResolvable(st: DefsState, metaOutputs: map<string, OutputMeta>, outs: seq<(string, Output)>)
    requires AddOutputs(st, metaOutputs, outs).Ok?
    ensures forall j :: 0 <= j < |outs| && Selected(outs[j].1) ==>
              OutputMetaFor(metaOutputs, outs[j].0).Ok? && OutputMetaFor(metaOutputs, outs[j].0).value.vartype.Some?
  {
    if outs != [] {
      var pre := outs[..|outs| - 1];
      AddOutputsResolvable(st, metaOutputs, pre);
      assert forall j :: 0 <= j < |pre| ==> pre[j] == outs[j];
    }
  }

  lemma {:induction false} AddOutputsErrStays(st: DefsState, metaOutputs: map<string, OutputMeta>, outs: seq<(string, Output)>, k: nat)
    requires k <= |outs| && AddOutputs(st, metaOutputs, outs[..k]).Err?
    ensures AddOutputs(st, metaOutputs, outs) == AddOutputs(st, metaOutputs, outs[..k])
  {
    if k < |outs| {
      assert outs[..|outs| - 1][..k] == outs[..k];
      AddOutputsErrStays(st, metaOutputs, outs[..|outs| - 1], k);
    } else {
      assert outs[..k] == outs;
    }
  }

  lemma {:induction false} DefinitionsErrStays(catalog: map<string, DeviceMeta>, devices: seq<Device>, k: nat)
    requires k <= |devices| && Definitions(catalog, devices[..k]).Err?
    ensures Definitions(catalog, devices) == Definitions(catalog, devices[..k])
  {
    if k < |devices| {
      assert devices[..|devices| - 1][..k] == devices[..k];
      DefinitionsErrStays(catalog, devices[..|devices| - 1], k);
    } else {
      assert devices[..k] == devices;
    }
  }

  /** The inner loop of `_make_variable_definitions` over the outputs of one device, appending
      to `points` and `known_vars`. */
  method AddOutputVariables(points: seq<VariableDefinition>, known: seq<string>, metaOutputs: map<string, OutputMeta>,
                            outs: seq<(string, Output)>)
    returns (r: Result<DefsState>)
    ensures r == AddOutputs(DefsState(points, known), metaOutputs, outs)
  {
    var points', known' := points, known;
    var j := 0;
    while j < |outs|
      invariant 0 <= j <= |outs|
      invariant AddOutputs(DefsState(points, known), metaOutputs, outs[..j]) == Ok(DefsState(points', known'))
    {
      var (k, o) := outs[j];
      assert outs[..j + 1][..j] == outs[..j];
      if o.enabled && o.varname.Some? && o.varname.value != "" {
        var varname := o.varname.value;
        if varname in known' {
          AddOutputsErrStays(DefsState(points, known), metaOutputs, outs, j + 1);
          return Err(DataWareHouseError(varname));
        }
        known' := known' + [varname];
        var outputMeta: OutputMeta;
        if k in metaOutputs {
          outputMeta := metaOutputs[k];
        } else if "*" in metaOutputs {
          outputMeta := metaOutputs["*"];
        } else {
          AddOutputsErrStays(DefsState(points, known), metaOutputs, outs, j + 1);
          return Err(TypeError);
        }
        if outputMeta.vartype.None? {
          AddOutputsErrStays(DefsState(points, known), metaOutputs, outs, j + 1);
          return Err(KeyError);
        }
        points' := points' + [MakeDefinition(varname, outputMeta.vartype.value, outputMeta.varunits)];
      }
      j := j + 1;
    }
    assert outs[..j] == outs;
    r := Ok(DefsState(points', known'));
  }

  /** `_make_variable_definitions`: the device metadata come from `catalog` through the
      `devmetas` cache, which only ever holds the catalog's own entries. */
  method MakeVariableDefinitions(catalog: map<string, DeviceMeta>, devices: seq<Device>)
    returns (r: Result<seq<VariableDefinition>>)
    ensures r == match Definitions(catalog, devices)
                 case Ok(st) => Ok(st.points)
                 case Err(e) => Err(e)
  {
    var points: seq<VariableDefinition> := [];
    var known: seq<string> := [];
    var devmetas: map<string, DeviceMeta> := map[];
    var i := 0;
    while i < |devices|
      invariant 0 <= i <= |devices|
      invariant Definitions(catalog, devices[..i]) == Ok(DefsState(points, known))
      invariant forall t :: t in devmetas ==> t in catalog && devmetas[t] == catalog[t]
    {
      var d := devices[i];
      assert devices[..i + 1][..i] == devices[..i];
      if !d.enabled {
        i := i + 1;
        continue;
      }
      var devmeta: DeviceMeta;
      if d.devType in devmetas {
        devmeta := devmetas[d.devType];
      } else {
        if d.devType !in catalog {
          DefinitionsErrStays(catalog, devices, i + 1);
          return Err(MetadataError);
        }
        devmeta := catalog[d.devType];
        devmetas := devmetas[d.devType := devmeta];
      }
      if d.outputs.Some? {
        if devmeta.outputs.None? {
          DefinitionsErrStays(catalog, devices, i + 1);
          return Err(KeyError);
        }
        var added := AddOutputVariables(points, known, devmeta.outputs.value, d.outputs.value);
        if added.Err? {
          DefinitionsErrStays(catalog, devices, i + 1);
          return Err(added.error);
        }
        points, known := added.value.points, added.value.known;
      } else if d.varname.Some? {
        var varname := d.varname.value;
        if varname in known {
          DefinitionsErrStays(catalog, devices, i + 1);
          return Err(DataWareHouseError(varname));
        }
        known := known + [varname];
        if devmeta.root.None? || devmeta.root.value.vartype.None? {
          DefinitionsErrStays(catalog, devices, i + 1);
          return Err(KeyError);
        }
        var outputMeta := devmeta.root.value;
        points := points + [MakeDefinition(varname, outputMeta.vartype.value, outputMeta.varunits)];
      }
      i := i + 1;
    }
    assert devices[..i] == devices;
    r := Ok(points);
  }

  /** The devices of all coordinators, one coordinator after the other. */
  function Flatten(cfg: seq<seq<Device>>): seq<Device>
  {
    if cfg == [] then [] else Flatten(cfg[..|cfg| - 1]) + cfg[|cfg| - 1]
  }

  /** `export_devices_configuration`: the six header lines, then one row per definition, in
      order; an error of `_make_variable_definitions` propagates. */
  method ExportDevicesConfiguration(f: VariableDefsExportFilter, cfg: seq<seq<Device>>, catalog: map<string, DeviceMeta>,
                                    now: string)
    returns (r: Result<seq<string>>)
    ensures var defs := Definitions(catalog, Flatten(cfg));
            (defs.Err? ==> r == Err(defs.error)) &&
            (defs.Ok? ==> r.Ok? && |r.value| == 6 + |defs.value.points| &&
                          r.value[..6] == ConfigurationHeader(f, now) &&
                          forall i :: 0 <= i < |defs.value.points| ==> r.value[6 + i] == DefinitionRow(defs.value.points[i]))
  {
    var allDevices := Flatten(cfg);
    var vardefs := MakeVariableDefinitions(catalog, allDevices);
    if vardefs.Err? {
      return Err(vardefs.error);
    }
    var rows: seq<string> := [];
    var i := 0;
    while i < |vardefs.value|
      invariant 0 <= i <= |vardefs.value|
      invariant |rows| == i
      invariant forall j :: 0 <= j < i ==> rows[j] == DefinitionRow(vardefs.value[j])
    {
      rows := rows + [DefinitionRow(vardefs.value[i])];
      i := i + 1;
    }
    var header := ConfigurationHeader(f, now);
    assert |header| == 6;
    r := Ok(header + rows);
  }

  /** Each row of an exported definitions file describes the declared variable of the same
      rank: its name twice, its type, the matching value type, its units and four empty bounds. */
  lemma ExportedRowsDescribeVariables(catalog: map<string, DeviceMeta>, devices: seq<Device>)
    requires Definitions(catalog, devices).Ok?
    ensures var points := Definitions(catalog, devices).value.points;
            var names := DeclaredNames(devices);
            |points| == |names| &&
            forall i :: 0 <= i < |points| && NoTabs(points[i]) ==>
              Split(DefinitionRow(points[i]), '\t') ==
                [names[i], names[i], points[i].vartype, VartypeToValuetype(points[i].vartype), OrEmpty(points[i].units),
                 "", "", "", ""]
  {
    DefinitionsSpec(catalog, devices);
    var points := Definitions(catalog, devices).value.points;
    forall i | 0 <= i < |points| && NoTabs(points[i])
      ensures Split(DefinitionRow(points[i]), '\t') == AsStrings(points[i])
    {
      DefinitionRowFields(points[i]);
    }
  }
}
