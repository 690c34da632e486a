/** The export processes of `process.py`: the events backlog drain, the configuration upload
    with its immediate retries, the events job and its archive, and the typed process
    configuration. */
module Process {
  import opened Wrappers
  import opened Text
  import opened Storage
  import opened PendingJobs
  import Filters

  // ---------------------------------------------------------------------------------------
  // Value handlers
  // ---------------------------------------------------------------------------------------

  /** `checked_positive`: the integer `int(s)` when it is strictly positive. */
  function CheckedPositive(s: string): (r: Result<int>)
    ensures r.Ok? <==> ParseInt(s).Ok? && ParseInt(s).value > 0
    ensures r.Ok? ==> r.value == ParseInt(s).value && r.value > 0
    ensures r.Err? ==> r.error == ValueError
  {
    match ParseInt(s)
    case Err(_) => Err(ValueError)
    case Ok(v) => if v > 0 then Ok(v) else Err(ValueError)
  }

  /** `checked_positive(str(n))` gives `n` back exactly when `n` is positive. */
  lemma CheckedPositiveOfString(n: int)
    ensures CheckedPositive(IntToString(n)) == if n > 0 then Ok(n) else Err(ValueError)
  {
    ParseIntToString(n);
  }

  /** `flag`: only the text `1` is true; other spellings of the integer 1 are false. */
  function Flag(s: string): (b: bool)
    ensures b ==> ParseInt(s) == Ok(1)
    ensures s == "01" ==> !b && ParseInt(s) == Ok(1)
  {
    ParseIntToString(1);
    assert ParseInt("01") == Ok(1) by {
      assert DigitsValue("01") == 1 by {
        assert "01"[..1] == "0";
        assert "0"[..0] == "";
      }
    }
    s == "1"
  }

  // ---------------------------------------------------------------------------------------
  // ProcessConfiguration
  // ---------------------------------------------------------------------------------------

  /** An attribute of the configuration object: a string, or what a value handler made of it;
      `None` is what `login` and `password` hold before the first read. */
  datatype Value = StrValue(s: string) | IntValue(n: int) | BoolValue(b: bool) | NoneValue

  /** `DEFAULTS`; `$$` stands for the `%s` placeholders. */
  const Defaults: map<string, string> := map[
    "site_code" := "",
    "contact" := "",
    "data_upload_url" := "https://api.DataWareHouse.eu/v1/users/current/sites/$$/variables/series",
    "cfg_upload_url" := "https://api.DataWareHouse.eu/v1/users/current/sites/$$/variables",
    "job_status_url" := "https://api.DataWareHouse.eu/v1/users/current/sites/$$/jobs/$$",
    "login" := "",
    "password" := "",
    "connect_timeout" := "60",
    "date_offset" := "1",
    "max_try" := "3",
    "retry_delay" := "10",
    "debug" := "0"
  ]

  /** The keys `_VALUE_HANDLERS` sends through `checked_positive`. */
  const PositiveKeys: set<string> := {"connect_timeout", "max_try", "retry_delay"}

  /** The key `_VALUE_HANDLERS` sends through `flag`. */
  const FlagKey := "debug"

  /** The conversion `read` applies to one option: the placeholder `$$` becomes `%s`, then the
      key's handler, if any, types the value; a handler's `ValueError` becomes a
      `ConfigParser.Error` naming the key. */
  function Convert(key: string, raw: string): (r: Result<Value>)
    ensures r.Err? <==> key in PositiveKeys && CheckedPositive(Replace(raw, "$$", "%s")).Err?
    ensures r.Err? ==> r.error == ConfigError(key)
    ensures r.Ok? && key in PositiveKeys ==> r.value.IntValue? && r.value.n > 0
    ensures r.Ok? && key !in PositiveKeys && key != FlagKey ==> r.value == StrValue(Replace(raw, "$$", "%s"))
  {
    var v := Replace(raw, "$$", "%s");
    if key in PositiveKeys then
      match CheckedPositive(v)
      case Err(_) => Err(ConfigError(key))
      case Ok(n) => Ok(IntValue(n))
    else if key == FlagKey then Ok(BoolValue(Flag(v)))
    else Ok(StrValue(v))
  }

  /** The loop of `read` over the section's options in `keys` order: each converted value is
      set as an attribute, and the first failing conversion stops the loop, leaving the
      attributes already set in place. */
  function ConvertAll(section: map<string, string>, keys: seq<string>, attrs: map<string, Value>): (map<string, Value>, Outcome)
    requires forall k :: k in keys ==> k in section
  {
    if keys == [] then (attrs, Pass)
    else
      match Convert(keys[0], section[keys[0]])
      case Err(e) => (attrs, Fail(e))
      case Ok(v) => ConvertAll(section, keys[1..], attrs[keys[0] := v])
  }

  /** `read` succeeds exactly when every option converts; it then sets each option's converted
      value and leaves other attributes alone. */
  lemma {:induction false} ConvertAllOk(section: map<string, string>, keys: seq<string>, attrs: map<string, Value>)
    requires forall k :: k in keys ==> k in section
    ensures var (res, out) := ConvertAll(section, keys, attrs);
            (out == Pass <==> forall k :: k in keys ==> Convert(k, section[k]).Ok?) &&
            (out == Pass ==>
               (forall k :: k in keys ==> k in res && res[k] == Convert(k, section[k]).value) &&
               (forall k :: k in attrs && k !in keys ==> k in res && res[k] == attrs[k]) &&
               (forall k :: k in res ==> k in attrs || k in keys))
  {
    if keys != [] {
      var k0 := keys[0];
      if Convert(k0, section[k0]).Ok? {
        ConvertAllOk(section, keys[1..], attrs[k0 := Convert(k0, section[k0]).value]);
      }
    }
  }

  /** A failing `read` names an option with a `checked_positive` handler whose value is not a
      positive integer. */
  lemma {:induction false} ConvertAllFails(section: map<string, string>, keys: seq<string>, attrs: map<string, Value>)
    requires forall k :: k in keys ==> k in section
    requires ConvertAll(section, keys, attrs).1.Fail?
    ensures exists k :: k in keys && k in PositiveKeys &&
              ConvertAll(section, keys, attrs).1 == Fail(ConfigError(k)) &&
              CheckedPositive(Replace(section[k], "$$", "%s")).Err?
  {
    var k0 := keys[0];
    if Convert(k0, section[k0]).Ok? {
      ConvertAllFails(section, keys[1..], attrs[k0 := Convert(k0, section[k0]).value]);
      var k :| k in keys[1..] && k in PositiveKeys && ConvertAll(section, keys[1..], attrs[k0 := Convert(k0, section[k0]).value]).1 == Fail(ConfigError(k)) &&
               CheckedPositive(Replace(section[k], "$$", "%s")).Err?;
      assert k in keys;
    }
  }

  /** The section `read` converts: the options already there, those loaded from the file, and
      the defaults of the keys still missing. */
  function Completed(section: map<string, string>, loaded: map<string, string>): (r: map<string, string>)
    ensures forall k :: k in Defaults ==> k in r
    ensures forall k :: k in r <==> k in Defaults || k in section || k in loaded
  {
    Defaults + (section + loaded)
  }

  /** Adding the defaults of the missing keys is a union that favours the present options. */
  lemma FillMissing(d: map<string, string>, s: map<string, string>)
    ensures s + (map k | k in d.Keys - s.Keys :: d[k]) == d + s
  {
    var l := s + (map k | k in d.Keys - s.Keys :: d[k]);
    assert l.Keys == (d + s).Keys;
  }

  /** After a successful `read` every default key is an attribute, holding the conversion of the
      loaded value, or of the default when the file has none. */
  lemma ReadFillsDefaults(section: map<string, string>, loaded: map<string, string>, order: seq<string>, attrs: map<string, Value>)
    requires forall k :: k in order <==> k in Completed(section, loaded)
    requires ConvertAll(Completed(section, loaded), order, attrs).1 == Pass
    ensures forall k :: k in Defaults ==>
              var res := ConvertAll(Completed(section, loaded), order, attrs).0;
              var raw := if k in loaded then loaded[k] else if k in section then section[k] else Defaults[k];
              k in res && Convert(k, raw).Ok? && res[k] == Convert(k, raw).value
  {
    ConvertAllOk(Completed(section, loaded), order, attrs);
  }

  /** `str(value)` as `write` renders an attribute. */
  function RenderAsWritten(v: Value): string
  {
    match v
    case StrValue(s) => s
    case IntValue(n) => IntToString(n)
    case BoolValue(b) => if b then "True" else "False"
    case NoneValue => "None"
  }

  /** The rendering a flag needs to survive the round trip: as `str` does, except that a flag
      is rendered the way `flag` reads it. */
  function Render(v: Value): string
  {
    match v
    case StrValue(s) => s
    case IntValue(n) => IntToString(n)
    case BoolValue(b) => if b then "1" else "0"
    case NoneValue => "None"
  }

  /** What `re.sub` with the parser's pattern `%\(([^)]+)\)s` leaves of a text: each
      `%(name)s` reference with a non-empty name is removed, scanning from the left. */
  function DropReferences(s: string): (r: string)
    ensures |r| <= |s|
    ensures '%' !in s ==> r == s
    decreases |s|
  {
    if |s| < 2 then s
    else if s[0] == '%' && s[1] == '(' then
      var j := 2 + IndexOf(s[2..], ')');
      if j > 2 && j + 1 < |s| && s[j + 1] == 's' then DropReferences(s[j + 2..])
      else [s[0]] + DropReferences(s[1..])
    else [s[0]] + DropReferences(s[1..])
  }

  /** `SafeConfigParser.set`'s check of a string value: once `%%` and the `%(name)s`
      references are taken out, no `%` may be left. */
  predicate SetAccepts(value: string)
  {
    '%' !in DropReferences(Replace(value, "%%", ""))
  }

  /** A text without `%` passes the check. */
  lemma NoPercentAccepted(t: string)
    requires '%' !in t
    ensures SetAccepts(t)
  {
    ReplaceAbsent(t, "%%", "");
  }

  /** The option text `write` hands to `SafeConfigParser.set` for an attribute shown as
      `shown`: the password as it is, any other attribute with its `%s` placeholders back to
      `$$`. `set` refuses a non-string with `TypeError` and a lone `%` with `ValueError`. */
  function SetOption(key: string, v: Value, shown: string): (r: Result<string>)
    ensures r.Err? ==> r.error == TypeError || r.error == ValueError
    ensures r.Err? && r.error == TypeError <==> key == "password" && !v.StrValue?
    ensures r.Ok? ==> SetAccepts(r.value)
    ensures r.Ok? && key != "password" ==> Replace(r.value, "$$", "%s") == Replace(Replace(shown, "%s", "$$"), "$$", "%s")
  {
    var text := if key != "password" then Ok(Replace(shown, "%s", "$$"))
                else if v.StrValue? then Ok(v.s)
                else Err(TypeError);
    if text.Err? then text
    else if SetAccepts(text.value) then text
    else Err(ValueError)
  }

  /** The text `write` stores for an option: `str` of the attribute, so a flag becomes
      `True` or `False`. */
  function WrittenOption(key: string, v: Value): (r: Result<string>)
    ensures r.Err? ==> r.error == TypeError || r.error == ValueError
    ensures r.Err? && r.error == TypeError <==> key == "password" && !v.StrValue?
    ensures r.Ok? ==> SetAccepts(r.value)
  {
    SetOption(key, v, RenderAsWritten(v))
  }

  /** The corrected write: a flag is stored as `1` or `0`, which `flag` reads as the same
      value. */
  function WrittenOptionCorrected(key: string, v: Value): (r: Result<string>)
    ensures r.Err? ==> r.error == TypeError || r.error == ValueError
    ensures r.Err? && r.error == TypeError <==> key == "password" && !v.StrValue?
    ensures r.Ok? ==> SetAccepts(r.value)
  {
    SetOption(key, v, Render(v))
  }

  /** `write` as written loses a true `debug` flag: whatever the flag, `str` stores `True` or
      `False`, and `flag` reads either back as false. */
  lemma DebugFlagLostAsWritten(b: bool)
    ensures Convert(FlagKey, "1") == Ok(BoolValue(true))
    ensures WrittenOption(FlagKey, BoolValue(b)) == Ok(if b then "True" else "False")
    ensures Convert(FlagKey, WrittenOption(FlagKey, BoolValue(b)).value) == Ok(BoolValue(false))
  {
    var t := if b then "True" else "False";
    ReplaceAbsent("1", "$$", "%s");
    ReplaceAbsent(t, "%s", "$$");
    ReplaceAbsent(t, "$$", "%s");
    NoPercentAccepted(t);
  }

  /** A value with a lone `%` cannot be written: `set` refuses it. */
  lemma LonePercentRefused()
    ensures WrittenOption("contact", StrValue("50%")) == Err(ValueError)
  {
    assert Replace("50%", "%s", "$$") == "50%" by {
      assert Replace("%", "%s", "$$") == "%";
      assert Replace("0%", "%s", "$$") == "0%";
    }
    assert Replace("50%", "%%", "") == "50%" by {
      assert Replace("%", "%%", "") == "%";
      assert Replace("0%", "%%", "") == "0%";
    }
    assert DropReferences("50%") == "50%";
    assert "50%"[2] == '%';
  }

  /** The attribute values the write as written and `read` reproduce: what the key's handler
      produces except a true `debug` flag, and text without `$` whose stored form `set`
      accepts. */
  predicate Writable(key: string, v: Value)
  {
    if key in PositiveKeys then v.IntValue? && v.n > 0
    else if key == FlagKey then v == BoolValue(false)
    else v.StrValue? && '$' !in v.s && SetAccepts(if key == "password" then v.s else Replace(v.s, "%s", "$$"))
  }

  /** The values the corrected write reproduces: those, and every flag. */
  predicate WritableCorrected(key: string, v: Value)
  {
    if key == FlagKey then v.BoolValue? else Writable(key, v)
  }

  /** Every value `read` makes from text without `$` or `%` can be written back by the
      corrected write, and by the write as written unless it is a true `debug` flag. */
  lemma ReadValuesWritable(key: string, raw: string)
    requires '$' !in raw && '%' !in raw && Convert(key, raw).Ok?
    ensures WritableCorrected(key, Convert(key, raw).value)
    ensures Writable(key, Convert(key, raw).value) <==> !(key == FlagKey && raw == "1")
  {
    ReplaceAbsent(raw, "$$", "%s");
    ReplaceAbsent(raw, "%s", "$$");
    NoPercentAccepted(raw);
  }

  lemma {:induction false} DigitsHaveNoPercent(n: int)
    ensures '%' !in IntToString(n) && '$' !in IntToString(n)
  {
    var r := IntToString(n);
    forall i | 0 <= i < |r| ensures r[i] != '%' && r[i] != '$' {
      if n < 0 && i > 0 {
        assert r[i] == r[1..][i - 1];
      }
    }
  }

  /** Writing then reading an option gives its value back, for the values the write as
      written can carry. */
  lemma WriteReadRoundTrip(key: string, v: Value)
    requires Writable(key, v)
    ensures WrittenOption(key, v).Ok? && Convert(key, WrittenOption(key, v).value) == Ok(v)
  {
    if key == "password" {
      ReplaceAbsent(v.s, "$$", "%s");
    } else if key in PositiveKeys {
      DigitsHaveNoPercent(v.n);
      ReplaceAbsent(IntToString(v.n), "%s", "$$");
      ReplaceAbsent(IntToString(v.n), "$$", "%s");
      NoPercentAccepted(IntToString(v.n));
      CheckedPositiveOfString(v.n);
    } else if key == FlagKey {
      DebugFlagLostAsWritten(false);
    } else {
      ReplaceRoundTrip(v.s);
    }
  }

  /** The corrected write round-trips every flag as well. */
  lemma WriteReadRoundTripCorrected(key: string, v: Value)
    requires WritableCorrected(key, v)
    ensures WrittenOptionCorrected(key, v).Ok? && Convert(key, WrittenOptionCorrected(key, v).value) == Ok(v)
  {
    if key == FlagKey {
      var t := if v.b then "1" else "0";
      ReplaceAbsent(t, "%s", "$$");
      ReplaceAbsent(t, "$$", "%s");
      NoPercentAccepted(t);
    } else {
      WriteReadRoundTrip(key, v);
      assert Render(v) == RenderAsWritten(v);
    }
  }

  /** The value `write` stores for one option, or the exception it raises: `getattr` of an
      option that is no attribute raises `AttributeError`. */
  function WriteValue(attrs: map<string, Value>, key: string): (r: Result<string>)
    ensures r.Err? <==> key !in attrs || WrittenOption(key, attrs[key]).Err?
  {
    if key !in attrs then Err(AttributeError) else WrittenOption(key, attrs[key])
  }

  /** The loop of `write` over the section's options in `keys` order. */
  function WriteAll(attrs: map<string, Value>, keys: seq<string>, section: map<string, string>): (map<string, string>, Outcome)
  {
    if keys == [] then (section, Pass)
    else
      match WriteValue(attrs, keys[0])
      case Err(e) => (section, Fail(e))
      case Ok(v) => WriteAll(attrs, keys[1..], section[keys[0] := v])
  }

  /** Writing the attributes and reading the written section back restores them. */
  lemma {:induction false} WriteAllReadBack(attrs: map<string, Value>, keys: seq<string>, section: map<string, string>)
    requires forall k :: k in keys ==> k in attrs && Writable(k, attrs[k])
    ensures var (written, out) := WriteAll(attrs, keys, section);
            out == Pass &&
            (forall k :: k in keys ==> k in written) &&
            ConvertAll(written, keys, attrs) == (attrs, Pass)
  {
    if keys != [] {
      var k0 := keys[0];
      WriteReadRoundTrip(k0, attrs[k0]);
      var s1 := section[k0 := WriteValue(attrs, k0).value];
      WriteAllReadBack(attrs, keys[1..], s1);
      var written := WriteAll(attrs, keys[1..], s1).0;
      WriteAllKeeps(attrs, keys[1..], s1, k0);
      assert written[k0] == WriteValue(attrs, k0).value;
      assert attrs[k0 := attrs[k0]] == attrs;
    }
  }

  /** An option the loop does not write again keeps its text when the loop succeeds. */
  lemma {:induction false} WriteAllKeeps(attrs: map<string, Value>, keys: seq<string>, section: map<string, string>, k: string)
    requires k in section
    requires forall j :: j in keys ==> j in attrs && Writable(j, attrs[j])
    requires k in keys ==> WriteValue(attrs, k).Ok? && section[k] == WriteValue(attrs, k).value
    ensures k in WriteAll(attrs, keys, section).0
    ensures WriteAll(attrs, keys, section).0[k] == section[k]
  {
    if keys != [] {
      WriteReadRoundTrip(keys[0], attrs[keys[0]]);
      var s1 := section[keys[0] := WriteValue(attrs, keys[0]).value];
      assert forall j :: j in keys[1..] ==> j in keys;
      WriteAllKeeps(attrs, keys[1..], s1, k);
    }
  }

  predicate NoDuplicates(keys: seq<string>)
  {
    forall i, j :: 0 <= i < j < |keys| ==> keys[i] != keys[j]
  }

  /** The configuration object: the parser's section and the attributes `read` sets. */
  class ProcessConfiguration {
    var section: map<string, string>
    var attrs: map<string, Value>

    /** `__init__`: the section holds the defaults; `login` and `password` are `None`. */
    constructor ()
      ensures section == Defaults
      ensures attrs == map["password" := NoneValue, "login" := NoneValue]
    {
      section := Defaults;
      attrs := map["password" := NoneValue, "login" := NoneValue];
    }

    /** `read`, given the options the parser loaded from the file and the order in which the
        section then lists its options. */
    method Read(loaded: map<string, string>, order: seq<string>) returns (r: Outcome)
      requires NoDuplicates(order)
      requires forall k :: k in order <==> k in Completed(section, loaded)
      modifies this
      ensures section == Completed(old(section), loaded)
      ensures (attrs, r) == ConvertAll(section, order, old(attrs))
    {
      Complete(loaded);
      r := ConvertOptions(order);
    }

    /** The first half of `read`: the loaded options, then the defaults of the missing keys. */
    method Complete(loaded: map<string, string>)
      modifies this`section
      ensures section == Completed(old(section), loaded)
    {
      section := section + loaded;
      var missing := Defaults.Keys - section.Keys;
      FillMissing(Defaults, section);
      section := section + map k | k in missing :: Defaults[k];
    }

    /** The second half of `read`: the conversion loop, setting one attribute per option. */
    method ConvertOptions(order: seq<string>) returns (r: Outcome)
      requires forall k :: k in order ==> k in section
      modifies this`attrs
      ensures (attrs, r) == ConvertAll(section, order, old(attrs))
    {
      var i := 0;
      while i < |order|
        invariant 0 <= i <= |order|
        invariant ConvertAll(section, order, old(attrs)) == ConvertAll(section, order[i..], attrs)
      {
        var k := order[i];
        assert order[i..][1..] == order[i + 1..];
        var c := Convert(k, section[k]);
        if c.Err? {
          return Fail(c.error);
        }
        attrs := attrs[k := c.value];
        i := i + 1;
      }
      r := Pass;
    }

    /** `write`, up to the text file the parser then produces: each option of the section gets
        the text of its attribute. */
    method Write(order: seq<string>) returns (r: Outcome)
      requires forall k :: k in order <==> k in section
      modifies this`section
      ensures (section, r) == WriteAll(attrs, order, old(section))
    {
      var i := 0;
      while i < |order|
        invariant 0 <= i <= |order|
        invariant WriteAll(attrs, order, old(section)) == WriteAll(attrs, order[i..], section)
      {
        var k := order[i];
        assert order[i..][1..] == order[i + 1..];
        var v := WriteValue(attrs, k);
        if v.Err? {
          return Fail(v.error);
        }
        section := section[k := v.value];
        i := i + 1;
      }
      r := Pass;
    }

    /** `as_dict`: the attribute of every default key, the password masked on request; a
        missing attribute raises `AttributeError`. */
    function AsDict(hidePwd: bool): (r: Result<map<string, Value>>)
      reads this
      ensures r.Ok? <==> forall k :: k in Defaults && !(hidePwd && k == "password") ==> k in attrs
      ensures r.Ok? ==> r.value.Keys == Defaults.Keys
      ensures r.Ok? && hidePwd ==> r.value["password"] == StrValue("********")
      ensures r.Ok? ==> forall k :: k in Defaults && !(hidePwd && k == "password") ==> r.value[k] == attrs[k]
    {
      if forall k :: k in Defaults && !(hidePwd && k == "password") ==> k in attrs then
        Ok(map k | k in Defaults :: if hidePwd && k == "password" then StrValue("********") else attrs[k])
      else Err(AttributeError)
    }
  }

  // ---------------------------------------------------------------------------------------
  // DWHEventsExportProcess
  // ---------------------------------------------------------------------------------------

  /** The parameters of a backlog job: the day, as a day number, whose events it exports. */
  datatype Params = Params(date: int)

  /** The events backlog: parameters by job id. */
  class Backlog {
    var entries: map<string, Params>

    constructor (entries: map<string, Params>)
      ensures this.entries == entries
    {
      this.entries := entries;
    }
  }

  const ErrNone := 0
  const ErrMultiple := 999

  /** The largest number of days a `timedelta` holds. */
  const MaxDeltaDays := 999999999

  /** The extraction day: today shifted back by the offset, whatever its sign. Days are
      numbered as `date.toordinal` does, 1 being the first day of year 1, the earliest date
      `datetime` represents; `timedelta` and the subtraction raise `OverflowError` beyond
      their ranges. */
  function ExtractDate(today: int, offset: int): (r: Result<int>)
    ensures var back := if offset < 0 then -offset else offset;
            r.Ok? <==> back <= MaxDeltaDays && today - back >= 1
    ensures r.Err? ==> r.error == OverflowError
    ensures r.Ok? ==> 1 <= r.value <= today && today - r.value == if offset < 0 then -offset else offset
  {
    var back := if offset < 0 then -offset else offset;
    if back > MaxDeltaDays then Err(OverflowError)
    else if today - back < 1 then Err(OverflowError)
    else Ok(today - back)
  }

  /** The backlog and the failed jobs after running the jobs `ids`, in order, with the
      parameters `params`; `runJob` is the error code a job run returns. */
  datatype Drain = Drain(backlog: map<string, Params>, failed: map<string, int>)

  function Drained(params: map<string, Params>, ids: seq<string>, runJob: (string, Params) -> int): Drain
    requires forall k :: k in ids ==> k in params
  {
    if ids == [] then Drain(params, map[])
    else
      var d := Drained(params, ids[..|ids| - 1], runJob);
      var id := ids[|ids| - 1];
      var code := runJob(id, params[id]);
      if code == 0 then Drain(d.backlog - {id}, d.failed) else Drain(d.backlog, d.failed[id := code])
  }

  /** A job stays in the backlog, and is recorded with its code among the failed jobs, exactly
      when its run returns a non-zero code; jobs not run are left in the backlog. */
  lemma {:induction false} DrainedSpec(params: map<string, Params>, ids: seq<string>, runJob: (string, Params) -> int)
    requires forall k :: k in ids ==> k in params
    requires NoDuplicates(ids)
    ensures var d := Drained(params, ids, runJob);
            (forall k :: k in d.backlog <==> k in params && (k !in ids || runJob(k, params[k]) != 0)) &&
            (forall k :: k in d.backlog ==> d.backlog[k] == params[k]) &&
            (forall k :: k in d.failed <==> k in ids && runJob(k, params[k]) != 0) &&
            (forall k :: k in d.failed ==> d.failed[k] == runJob(k, params[k]))
  {
    if ids != [] {
      var pre := ids[..|ids| - 1];
      assert forall k :: k in pre ==> k in ids;
      assert NoDuplicates(pre) by {
        forall i, j | 0 <= i < j < |pre| ensures pre[i] != pre[j] {
          assert pre[i] == ids[i] && pre[j] == ids[j];
        }
      }
      DrainedSpec(params, pre, runJob);
      var id := ids[|ids| - 1];
      assert id !in pre by {
        forall i | 0 <= i < |pre| ensures pre[i] != id {
          assert pre[i] == ids[i];
        }
      }
      assert forall k :: k in ids <==> k in pre || k == id;
    }
  }

  /** The run's status: 0 with no failure, the failed job's own code with one, `ERR_MULTIPLE`
      with more. */
  function Status(failed: map<string, int>): int
  {
    if |failed| == 0 then ErrNone
    else if |failed| == 1 then
      SingleKey(failed);
      var id :| id in failed; failed[id]
    else ErrMultiple
  }

  lemma SingleKey(m: map<string, int>)
    requires |m| == 1
    ensures exists id :: id in m
    ensures forall a, b :: a in m && b in m ==> a == b
  {
    var a :| a in m.Keys;
    forall b | b in m ensures b == a {
      if b != a {
        assert {a, b} <= m.Keys;
        assert |{a, b}| == 2;
        SubsetCard({a, b}, m.Keys);
      }
    }
  }

  lemma SubsetCard(a: set<string>, b: set<string>)
    requires a <= b
    ensures |a| <= |b|
  {
    if a != {} {
      var x :| x in a;
      SubsetCard(a - {x}, b - {x});
    }
  }

  /** With non-zero failure codes the status is 0 exactly when no job failed, the job's code
      when one failed, and `ERR_MULTIPLE` when several did. */
  lemma StatusSpec(failed: map<string, int>)
    requires forall k :: k in failed ==> failed[k] != 0
    ensures Status(failed) == ErrNone <==> failed == map[]
    ensures |failed| == 1 ==> exists id :: failed == map[id := Status(failed)]
    ensures |failed| >= 2 ==> Status(failed) == ErrMultiple
  {
    if |failed| == 1 {
      SingleKey(failed);
      var id :| id in failed;
      assert failed == map[id := failed[id]];
    }
    if failed == map[] {
      assert |failed| == 0;
    }
  }

  lemma StatusOfNonZero(failed: map<string, int>)
    ensures (forall k :: k in failed ==> failed[k] != 0) ==> (Status(failed) == ErrNone <==> failed == map[])
  {
    if forall k :: k in failed ==> failed[k] != 0 {
      StatusSpec(failed);
    }
  }

  /** `DWHEventsExportProcess` */
  class EventsExportProcess {
    var failedJobs: map<string, int>

    /** Every recorded job failed with a non-zero code. */
    ghost predicate Valid()
      reads this
    {
      forall id :: id in failedJobs ==> failedJobs[id] != 0
    }

    constructor ()
      ensures failedJobs == map[] && Valid()
    {
      failedJobs := map[];
    }

    /** `run`: a bad `date_offset` raises `ValueError`, and one reaching outside the dates
        `datetime` represents raises `OverflowError`, before anything is done; otherwise the
        new job `jobId` is put into the backlog, then every backlog job is run in `order`, the
        successful ones leave the backlog and the failed ones are recorded with their code.
        `today` stands for the clock, `runJob` for `EventsExportJob.run`. */
    method Run(backlog: Backlog, dateOffset: string, today: int, jobId: string, order: seq<string>,
               runJob: (string, Params) -> int)
      returns (r: Result<int>)
      requires NoDuplicates(order)
      requires forall k :: k in order <==> k in backlog.entries || k == jobId
      modifies this, backlog
      ensures ParseInt(dateOffset).Err? ==>
                r == Err(ValueError) && failedJobs == old(failedJobs) && backlog.entries == old(backlog.entries)
      ensures ParseInt(dateOffset).Ok? && ExtractDate(today, ParseInt(dateOffset).value).Err? ==>
                r == Err(OverflowError) && failedJobs == old(failedJobs) && backlog.entries == old(backlog.entries)
      ensures ParseInt(dateOffset).Ok? && ExtractDate(today, ParseInt(dateOffset).value).Ok? ==>
                var put := old(backlog.entries)[jobId := Params(ExtractDate(today, ParseInt(dateOffset).value).value)];
                var d := Drained(put, order, runJob);
                backlog.entries == d.backlog && failedJobs == d.failed && r == Ok(Status(failedJobs)) && Valid()
    {
      var offset := ParseInt(dateOffset);
      if offset.Err? {
        return Err(ValueError);
      }
      var date := ExtractDate(today, offset.value);
      if date.Err? {
        return Err(date.error);
      }
      backlog.entries := backlog.entries[jobId := Params(date.value)];
      var params := backlog.entries;
      failedJobs := map[];
      var i := 0;
      while i < |order|
        invariant 0 <= i <= |order|
        invariant Drained(params, order[..i], runJob) == Drain(backlog.entries, failedJobs)
        invariant Valid()
      {
        var id := order[i];
        assert order[..i + 1][..i] == order[..i];
        var code := runJob(id, params[id]);
        if code == 0 {
          backlog.entries := backlog.entries - {id};
        } else {
          failedJobs := failedJobs[id := code];
        }
        i := i + 1;
      }
      assert order[..i] == order;
      var status := ErrNone;
      if |failedJobs| == 1 {
        SingleKey(failedJobs);
        var id :| id in failedJobs;
        status := failedJobs[id];
      } else if |failedJobs| >= 2 {
        status := ErrMultiple;
      }
      r := Ok(status);
    }

    /** `failed_jobs`: the jobs of the last run that failed, with their codes; while the
        object is valid, the run's status is 0 exactly when there are none. */
    function FailedJobs(): (r: map<string, int>)
      reads this
      ensures Valid() ==> (forall id :: id in r ==> r[id] != 0) && (Status(r) == ErrNone <==> r == map[])
    {
      StatusOfNonZero(failedJobs);
      failedJobs
    }
  }

  /** After a run, the backlog holds exactly the jobs whose run failed, the new one included,
      and the status reports them. */
  lemma RunOutcome(entries: map<string, Params>, jobId: string, date: int, order: seq<string>,
                   runJob: (string, Params) -> int)
    requires NoDuplicates(order)
    requires forall k :: k in order <==> k in entries || k == jobId
    ensures var put := entries[jobId := Params(date)];
            var d := Drained(put, order, runJob);
            (forall k :: k in d.backlog <==> k in put && runJob(k, put[k]) != 0) &&
            (jobId in d.backlog <==> runJob(jobId, Params(date)) != 0) &&
            d.backlog.Keys == d.failed.Keys &&
            (Status(d.failed) == ErrNone <==> d.backlog == map[])
  {
    var put := entries[jobId := Params(date)];
    DrainedSpec(put, order, runJob);
    var d := Drained(put, order, runJob);
    StatusSpec(d.failed);
    if d.failed == map[] {
      assert d.backlog.Keys == {};
    }
  }

  // ---------------------------------------------------------------------------------------
  // DWHConfigurationExportProcess
  // ---------------------------------------------------------------------------------------

  const ErrExport := 101
  const ErrUpload := 201

  /** `error_message`: an unknown code raises `KeyError`. */
  function ErrorMessage(code: int): (r: Result<string>)
    ensures r.Ok? <==> code == ErrNone || code == ErrExport || code == ErrUpload
  {
    if code == ErrNone then Ok("successful")
    else if code == ErrExport then Ok("configuration export error")
    else if code == ErrUpload then Ok("upload failure")
    else Err(KeyError)
  }

  /** The temporary file's text: each line followed by `LINE_END`. */
  function FileText(lines: seq<string>): string
  {
    if lines == [] then "" else FileText(lines[..|lines| - 1]) + lines[|lines| - 1] + "\n"
  }

  /** The number of POSTs made, `cnt` failed ones having been made already. */
  function Attempts(ok: nat -> bool, maxTry: int, cnt: nat): nat
    decreases maxTry - cnt
  {
    if cnt >= maxTry then cnt else if ok(cnt + 1) then cnt + 1 else Attempts(ok, maxTry, cnt + 1)
  }

  /** At most `max_try` POSTs, none after the first successful one: the last one made is the
      first success, or all `max_try` failed. */
  lemma {:induction false} AttemptsSpec(ok: nat -> bool, maxTry: int, cnt: nat)
    requires forall a :: 1 <= a <= cnt ==> !ok(a)
    ensures var n := Attempts(ok, maxTry, cnt);
            n >= cnt && n <= (if maxTry > cnt then maxTry else cnt) &&
            (forall a :: 1 <= a < n ==> !ok(a)) &&
            ((exists a :: 1 <= a <= maxTry && ok(a)) <==> n >= 1 && ok(n))
    decreases maxTry - cnt
  {
    if cnt < maxTry && !ok(cnt + 1) {
      AttemptsSpec(ok, maxTry, cnt + 1);
    }
    var n := Attempts(ok, maxTry, cnt);
    if exists a :: 1 <= a <= maxTry && ok(a) {
      var a :| 1 <= a <= maxTry && ok(a);
      assert a >= n;
    }
  }

  /** What the POSTs read from the temporary file as written: it is rewound once, before the
      first attempt, and each POST reads it from where the previous one stopped. */
  function ReadsFrom(text: string, pos: nat, attempts: nat): (r: seq<string>)
    requires pos <= |text|
    ensures |r| == attempts
    decreases attempts
  {
    if attempts == 0 then [] else [text[pos..]] + ReadsFrom(text, |text|, attempts - 1)
  }

  /** As written, a retry uploads an empty file: the first POST read it to its end. */
  lemma RetryUploadsEmptyAsWritten(text: string)
    requires text != ""
    ensures ReadsFrom(text, 0, 2) == [text, ""]
  {
    assert text[0..] == text;
    assert text[|text|..] == "";
  }

  /** As written, whatever the number of attempts, the first POST uploads the file from the
      rewound position and every later one uploads an empty file. */
  lemma {:induction false} ReadsFromRetriesEmpty(text: string, pos: nat, n: nat)
    requires pos <= |text|
    ensures n > 0 ==> ReadsFrom(text, pos, n)[0] == text[pos..]
    ensures forall k :: 1 <= k < n ==> ReadsFrom(text, pos, n)[k] == ""
    decreases n
  {
    if n > 0 {
      ReadsFromRetriesEmpty(text, |text|, n - 1);
      forall k | 1 <= k < n
        ensures ReadsFrom(text, pos, n)[k] == ""
      {
        assert ReadsFrom(text, pos, n)[k] == ReadsFrom(text, |text|, n - 1)[k - 1];
      }
    }
  }

  /** The lines `export_devices_configuration` returns for the definitions `points`. */
  function ConfigurationLines(f: Filters.VariableDefsExportFilter, now: string, points: seq<Filters.VariableDefinition>): (r: seq<string>)
    ensures |r| == 6 + |points|
  {
    Filters.ConfigurationHeader(f, now) + seq(|points|, i requires 0 <= i < |points| => Filters.DefinitionRow(points[i]))
  }

  /** Lines made of a header and one row per definition. */
  lemma Reassemble(lines: seq<string>, header: seq<string>, points: seq<Filters.VariableDefinition>)
    requires |header| == 6 && |lines| == 6 + |points| && lines[..6] == header
    requires forall i :: 0 <= i < |points| ==> lines[6 + i] == Filters.DefinitionRow(points[i])
    ensures lines == header + seq(|points|, i requires 0 <= i < |points| => Filters.DefinitionRow(points[i]))
  {
    var rows := seq(|points|, i requires 0 <= i < |points| => Filters.DefinitionRow(points[i]));
    forall k | 0 <= k < |lines| ensures lines[k] == (header + rows)[k] {
      if k < 6 {
        assert lines[k] == lines[..6][k];
      }
    }
  }

  /** The configuration export process: the filter's site code and contact, the device
      configuration and its metadata catalog, `max_try` and the reply oracle `ok` (does the
      POST of attempt `a` succeed); `now` stands for the header's creation date. It returns the
      error code, the text each POST uploads, and the number of sleeps between attempts. */
  method ConfigurationRun(siteCode: Option<string>, contact: Option<string>, cfg: seq<seq<Filters.Device>>,
                          catalog: map<string, Filters.DeviceMeta>, now: string, maxTry: int, ok: nat -> bool)
    returns (code: int, uploads: seq<string>, sleeps: nat)
    ensures code == ErrNone || code == ErrExport
    ensures var f := Filters.NewVariableDefsExportFilter(siteCode, contact);
            var defs := Filters.Definitions(catalog, Filters.Flatten(cfg));
            f.Err? || defs.Err? ==> code == ErrExport && uploads == [] && sleeps == 0
    ensures var f := Filters.NewVariableDefsExportFilter(siteCode, contact);
            var defs := Filters.Definitions(catalog, Filters.Flatten(cfg));
            f.Ok? && defs.Ok? ==>
              var n := Attempts(ok, maxTry, 0);
              |uploads| == n &&
              uploads == ReadsFrom(FileText(ConfigurationLines(f.value, now, defs.value.points)), 0, n) &&
              (code == ErrNone <==> exists a :: 1 <= a <= maxTry && ok(a)) &&
              sleeps == (if n == 0 then 0 else n - 1)
  {
    code := ErrExport;
    uploads := [];
    sleeps := 0;
    var f := Filters.NewVariableDefsExportFilter(siteCode, contact);
    if f.Err? {
      return;
    }
    var data := Filters.ExportDevicesConfiguration(f.value, cfg, catalog, now);
    if data.Err? {
      return;
    }
    ghost var defs := Filters.Definitions(catalog, Filters.Flatten(cfg));
    Reassemble(data.value, Filters.ConfigurationHeader(f.value, now), defs.value.points);
    var text := WriteLines(data.value);
    var done;
    done, uploads, sleeps := UploadAsWritten(text, maxTry, ok);
    if done {
      code := ErrNone;
    }
  }

  /** The retry loop as written: the file is rewound once, before the loop, and each POST
      reads it from the current position to its end; a failed POST is followed by a sleep
      when another attempt remains. */
  method UploadAsWritten(text: string, maxTry: int, ok: nat -> bool) returns (done: bool, uploads: seq<string>, sleeps: nat)
    ensures var n := Attempts(ok, maxTry, 0);
            uploads == ReadsFrom(text, 0, n) &&
            (done <==> exists a :: 1 <= a <= maxTry && ok(a)) &&
            sleeps == (if n == 0 then 0 else n - 1)
  {
    done := false;
    uploads := [];
    sleeps := 0;
    var pos := 0;
    var cnt := 0;
    AttemptsSpec(ok, maxTry, 0);
    while !done && cnt < maxTry
      invariant done ==> cnt >= 1 && ok(cnt) && cnt == Attempts(ok, maxTry, 0)
      invariant !done ==> Attempts(ok, maxTry, cnt) == Attempts(ok, maxTry, 0) && forall a :: 1 <= a <= cnt ==> !ok(a)
      invariant pos == if cnt == 0 then 0 else |text|
      invariant |uploads| == cnt && (cnt > 0 ==> uploads[0] == text) && forall k :: 1 <= k < cnt ==> uploads[k] == ""
      invariant sleeps == if cnt == 0 then 0 else if !done && cnt < maxTry then cnt else cnt - 1
      decreases maxTry - cnt
    {
      cnt := cnt + 1;
      uploads := uploads + [text[pos..]];
      pos := |text|;
      if ok(cnt) {
        done := true;
      } else if cnt < maxTry {
        sleeps := sleeps + 1;
      }
    }
    ReadsFromRetriesEmpty(text, 0, cnt);
    assert text[0..] == text;
  }

  /** The corrected retry loop: POSTs the whole file, rewound each time, until a POST succeeds or
      `max_try` POSTs were made, sleeping between a failed POST and the next one. */
  method Upload(text: string, maxTry: int, ok: nat -> bool) returns (done: bool, uploads: seq<string>, sleeps: nat)
    ensures var n := Attempts(ok, maxTry, 0);
            |uploads| == n && (forall k :: 0 <= k < n ==> uploads[k] == text) &&
            (done <==> exists a :: 1 <= a <= maxTry && ok(a)) &&
            sleeps == (if n == 0 then 0 else n - 1)
  {
    done := false;
    uploads := [];
    sleeps := 0;
    var cnt := 0;
    AttemptsSpec(ok, maxTry, 0);
    while !done && cnt < maxTry
      invariant done ==> cnt >= 1 && ok(cnt) && cnt == Attempts(ok, maxTry, 0)
      invariant !done ==> Attempts(ok, maxTry, cnt) == Attempts(ok, maxTry, 0) && forall a :: 1 <= a <= cnt ==> !ok(a)
      invariant |uploads| == cnt && forall k :: 0 <= k < cnt ==> uploads[k] == text
      invariant sleeps == if cnt == 0 then 0 else if !done && cnt < maxTry then cnt else cnt - 1
      decreases maxTry - cnt
    {
      cnt := cnt + 1;
      uploads := uploads + [text];
      if ok(cnt) {
        done := true;
      } else if cnt < maxTry {
        sleeps := sleeps + 1;
      }
    }
  }

  /** Writes `line + LINE_END` for each line into the temporary file. */
  method WriteLines(lines: seq<string>) returns (text: string)
    ensures text == FileText(lines)
  {
    text := "";
    var i := 0;
    while i < |lines|
      invariant 0 <= i <= |lines|
      invariant text == FileText(lines[..i])
    {
      assert lines[..i + 1][..i] == lines[..i];
      text := text + lines[i] + "\n";
      i := i + 1;
    }
    assert lines[..i] == lines;
  }

  // ---------------------------------------------------------------------------------------
  // DWHEventsExportJob
  // ---------------------------------------------------------------------------------------

  /** `os.path.basename` */
  function Basename(p: string): (r: string)
    ensures '/' !in r
    ensures |r| <= |p| && r == p[|p| - |r|..]
    decreases |p|
  {
    if '/' !in p then p else Basename(p[IndexOf(p, '/') + 1..])
  }

  /** The archive path for a site and a formatted time stamp. */
  function ArchiveName(siteCode: string, stamp: string): (r: string)
  {
    "/tmp/" + siteCode + "-" + stamp + ".zip"
  }

  /** Stamps of the same format width give one archive per stamp. */
  lemma ArchiveNameInjective(siteCode: string, s1: string, s2: string)
    requires |s1| == |s2| && ArchiveName(siteCode, s1) == ArchiveName(siteCode, s2)
    ensures s1 == s2
  {
    var n := |"/tmp/" + siteCode + "-"|;
    assert s1 == ArchiveName(siteCode, s1)[n..n + |s1|];
    assert s2 == ArchiveName(siteCode, s2)[n..n + |s2|];
  }

  /** The members of an archive of the files `paths`: each under its base name. */
  function Members(files: map<string, string>, paths: seq<string>): (r: seq<(string, string)>)
    requires forall k :: 0 <= k < |paths| ==> paths[k] in files
    ensures |r| == |paths|
    ensures forall k :: 0 <= k < |paths| ==> r[k] == (Basename(paths[k]), files[paths[k]])
  {
    seq(|paths|, k requires 0 <= k < |paths| => (Basename(paths[k]), files[paths[k]]))
  }

  /** The files left once the files `paths` are removed. */
  function Without(files: map<string, string>, paths: seq<string>): map<string, string>
  {
    if paths == [] then files else Without(files, paths[..|paths| - 1]) - {paths[|paths| - 1]}
  }

  /** Removing files keeps exactly the others, with their contents. */
  lemma {:induction false} WithoutSpec(files: map<string, string>, paths: seq<string>)
    ensures forall p :: p in Without(files, paths) <==> p in files && p !in paths
    ensures forall p :: p in Without(files, paths) ==> Without(files, paths)[p] == files[p]
  {
    if paths != [] {
      var pre := paths[..|paths| - 1];
      WithoutSpec(files, pre);
      assert forall p :: p in paths <==> p in pre || p == paths[|paths| - 1];
    }
  }

  /** The reply to the data upload: its `ok` status, the `jobID` entry of its JSON body, and
      whether the body has a `message` entry. */
  datatype UploadReply = UploadReply(ok: bool, jobId: Option<JobId>, hasMessage: bool)

  /** The queue the pending-jobs file holds, as `PendingJobsQueue()` loads it. */
  function Queued(files: map<string, string>): seq<string>
  {
    if DefaultPath in files then LoadedIds(files[DefaultPath]) else []
  }

  /** `DWHEventsExportJob`: the configuration values it reads, and the archive it creates. */
  class EventsExportJob {
    const siteCode: string
    const debug: bool
    var archive: Option<string>

    constructor (siteCode: string, debug: bool)
      ensures this.siteCode == siteCode && this.debug == debug && archive == None
    {
      this.siteCode := siteCode;
      this.debug := debug;
      archive := None;
    }

    /** `export_events`: exports `events` (the kWh events of the job's day) to series files in
        `/tmp`, packs them into a new archive, which becomes the job's archive, and deletes
        them. No events, no archive. `exportStamp`, `now` and `archiveStamp` are the formatted
        clock readings. */
    method ExportEvents(events: seq<Filters.Event>, store: FileStore, exportStamp: string, now: string, archiveStamp: string)
      returns (r: Result<nat>)
      modifies this`archive, store
      ensures siteCode == "" ==> r == Err(ValueError) && archive == None && unchanged(store)
      ensures siteCode != "" && events == [] ==> r == Ok(0) && archive == None && unchanged(store)
      ensures siteCode != "" && events != [] ==>
                var c := Filters.ExportCall(Filters.EventsExportFilter(siteCode, None, false), "/tmp", exportStamp, now);
                var run := Filters.Exported(c, old(store.files), events);
                (run.Raised? ==> r == Err(run.error) && archive == None && store.files == run.st.files &&
                                 store.archives == old(store.archives)) &&
                (run.Running? ==>
                   r == Ok(run.st.count) && archive == Some(ArchiveName(siteCode, archiveStamp)) &&
                   (forall k :: 0 <= k < |run.st.created| ==> run.st.created[k] in run.st.files) &&
                   store.archives == old(store.archives)[ArchiveName(siteCode, archiveStamp) := Members(run.st.files, run.st.created)] &&
                   store.files == Without(run.st.files, run.st.created))
    {
      archive := None;
      var f := Filters.NewEventsExportFilter(if siteCode == "" then None else Some(siteCode), None, false);
      if f.Err? {
        return Err(ValueError);
      }
      if events == [] {
        return Ok(0);
      }
      var c := Filters.ExportCall(f.value, "/tmp", exportStamp, now);
      var res := Filters.ExportEvents(c, events, store);
      if res.Err? {
        return Err(res.error);
      }
      var count := res.value.0;
      var seriesFiles := res.value.1;
      Filters.ExportedSeries(c, old(store.files), events);
      var name := CreateArchive(seriesFiles, archiveStamp, store);
      archive := Some(name);
      r := Ok(count);
    }

    /** `create_archive` with clean-up: the archive packs the series files, which are then
        removed. */
    method CreateArchive(seriesFiles: seq<string>, stamp: string, store: FileStore) returns (name: string)
      requires forall k :: 0 <= k < |seriesFiles| ==> seriesFiles[k] in store.files
      modifies store
      ensures name == ArchiveName(siteCode, stamp)
      ensures store.archives == old(store.archives)[name := Members(old(store.files), seriesFiles)]
      ensures store.files == Without(old(store.files), seriesFiles)
    {
      name := ArchiveName(siteCode, stamp);
      var members := Pack(seriesFiles, store.files);
      store.archives := store.archives[name := members];
      RemoveFiles(seriesFiles, store);
    }

    /** The loop writing each series file into the archive under its base name. */
    static method Pack(seriesFiles: seq<string>, files: map<string, string>) returns (members: seq<(string, string)>)
      requires forall k :: 0 <= k < |seriesFiles| ==> seriesFiles[k] in files
      ensures members == Members(files, seriesFiles)
    {
      members := [];
      var i := 0;
      while i < |seriesFiles|
        invariant 0 <= i <= |seriesFiles|
        invariant members == Members(files, seriesFiles[..i])
      {
        members := members + [(Basename(seriesFiles[i]), files[seriesFiles[i]])];
        i := i + 1;
      }
      assert seriesFiles[..i] == seriesFiles;
    }

    /** The clean-up loop removing each series file. */
    static method RemoveFiles(seriesFiles: seq<string>, store: FileStore)
      modifies store`files
      ensures store.files == Without(old(store.files), seriesFiles)
    {
      var i := 0;
      while i < |seriesFiles|
        invariant 0 <= i <= |seriesFiles|
        invariant store.files == Without(old(store.files), seriesFiles[..i])
      {
        assert seriesFiles[..i + 1][..i] == seriesFiles[..i];
        store.files := store.files - {seriesFiles[i]};
        i := i + 1;
      }
      assert seriesFiles[..i] == seriesFiles;
    }

    /** `send_data`: without an archive, nothing happens; a failed upload raises `ExportError`,
        a reply without `jobID` raises `KeyError`, and a successful one appends the remote job
        id to the pending-jobs queue file. */
    method SendData(reply: UploadReply, store: FileStore) returns (r: Outcome)
      modifies store`files
      ensures archive.None? ==> r == Pass && store.files == old(store.files)
      ensures archive.Some? && !reply.ok ==> r == Fail(ExportError) && store.files == old(store.files)
      ensures archive.Some? && reply.ok && (reply.jobId.None? || !reply.hasMessage) ==>
                r == Fail(KeyError) && store.files == old(store.files)
      ensures archive.Some? && reply.ok && reply.jobId.Some? && reply.hasMessage ==>
                r == Pass &&
                store.files == old(store.files)[DefaultPath := SavedContent(Queued(old(store.files)) + [Str(reply.jobId.value)])]
    {
      if archive.None? {
        return Pass;
      }
      if !reply.ok {
        return Fail(ExportError);
      }
      if reply.jobId.None? || !reply.hasMessage {
        return Fail(KeyError);
      }
      var q := Open(DefaultPath, store);
      var queue: PendingJobsQueue := q.value;
      queue.Append(reply.jobId.value);
      r := Pass;
    }

    /** `cleanup`: forgets the archive, deleting it unless in debug mode. */
    method Cleanup(store: FileStore)
      modifies this`archive, store`archives
      ensures archive == None
      ensures old(archive).Some? && !debug ==> store.archives == old(store.archives) - {old(archive).value}
      ensures old(archive).None? || debug ==> store.archives == old(store.archives)
    {
      if archive.Some? {
        if !debug {
          store.archives := store.archives - {archive.value};
        }
        archive := None;
      }
    }
  }
}
