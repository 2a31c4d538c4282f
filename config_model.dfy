/** The configuration schema: the frozen records a configuration document is
    validated into, with their field constraints and defaults. A document is a
    JSON value; validation either yields the typed records or rejects it. */
module ConfigModel {
  import opened Common

  /** A JSON document. Object members keep their order, as a Python dict does. */
  datatype Json =
    | JNull
    | JBool(b: bool)
    | JInt(i: int)
    | JReal(r: real)
    | JString(s: string)
    | JArray(items: seq<Json>)
    | JObject(fields: seq<(string, Json)>)

  /** The value of an `interval` field: a positive number of seconds, or a
      duration string for metricq to parse. */
  datatype Interval = Seconds(seconds: real) | Text(text: string)

  predicate IntervalValid(interval: Option<Interval>) {
    interval.Some? && interval.value.Seconds? ==> interval.value.seconds > 0.0
  }

  datatype MetricConfig = MetricConfig(
    address: int,
    description: string,
    unit: Option<string>,
    chunkSize: Option<int>)
  {
    predicate Valid() { address >= 0 }
  }

  datatype GroupConfig = GroupConfig(
    interval: Option<Interval>,
    metrics: seq<(string, MetricConfig)>,
    doubleSample: bool)
  {
    predicate Valid() {
      && IntervalValid(interval)
      && |metrics| > 0
      && DistinctNames(metrics)
      && forall i :: 0 <= i < |metrics| ==> metrics[i].1.Valid()
    }
  }

  datatype HostConfig = HostConfig(
    hosts: string,
    port: int,
    names: string,
    slaveId: int,
    description: string,
    groups: seq<GroupConfig>)
  {
    predicate Valid() {
      && port > 0
      && |groups| > 0
      && forall i :: 0 <= i < |groups| ==> groups[i].Valid()
    }
  }

  datatype SourceConfig = SourceConfig(interval: Option<Interval>, hosts: seq<HostConfig>)
  {
    predicate Valid() {
      && IntervalValid(interval)
      && |hosts| > 0
      && forall i :: 0 <= i < |hosts| ==> hosts[i].Valid()
    }
  }

  const DEFAULT_PORT: int := 502

  /** The fields each strict record accepts; any other field rejects the document. */
  const METRIC_FIELDS: set<string> := {"address", "description", "unit", "chunk_size"}
  const GROUP_FIELDS: set<string> := {"interval", "metrics", "double_sample"}
  const HOST_FIELDS: set<string> := {"hosts", "port", "names", "slave_id", "description", "groups"}

  /** The value of the member named `key`; when a document repeats a name,
      the last occurrence wins, as in a Python `dict` built from it. */
  function Lookup(fields: seq<(string, Json)>, key: string): Option<Json> {
    if fields == [] then None
    else
      var later := Lookup(fields[1..], key);
      if later.Some? then later
      else if fields[0].0 == key then Some(fields[0].1)
      else None
  }

  /** Lookup finds the member at i when no later member has that name. */
  lemma {:induction false} LookupAt(fields: seq<(string, Json)>, key: string, i: int)
    requires 0 <= i < |fields| && fields[i].0 == key
    requires forall k :: i < k < |fields| ==> fields[k].0 != key
    ensures Lookup(fields, key) == Some(fields[i].1)
  {
    if i > 0 {
      LookupAt(fields[1..], key, i - 1);
    } else {
      LookupAbsent(fields[1..], key);
    }
  }

  lemma {:induction false} LookupAbsent(fields: seq<(string, Json)>, key: string)
    requires forall k :: 0 <= k < |fields| ==> fields[k].0 != key
    ensures Lookup(fields, key) == None
  {
    if fields != [] {
      LookupAbsent(fields[1..], key);
    }
  }

  predicate OnlyFields(fields: seq<(string, Json)>, allowed: set<string>) {
    forall i :: 0 <= i < |fields| ==> fields[i].0 in allowed
  }

  // Field readers: the outer None rejects the document.

  /** A `str` field with a default. */
  function StringOr(fields: seq<(string, Json)>, key: string, default: string): Option<string> {
    match Lookup(fields, key)
    case None => Some(default)
    case Some(JString(s)) => Some(s)
    case Some(_) => None
  }

  /** An `Optional[str] = None` field. */
  function OptionalString(fields: seq<(string, Json)>, key: string): Option<Option<string>> {
    match Lookup(fields, key)
    case None => Some(None)
    case Some(JNull) => Some(None)
    case Some(JString(s)) => Some(Some(s))
    case Some(_) => None
  }

  /** An `Optional[int] = None` field. */
  function OptionalInt(fields: seq<(string, Json)>, key: string): Option<Option<int>> {
    match Lookup(fields, key)
    case None => Some(None)
    case Some(JNull) => Some(None)
    case Some(JInt(n)) => Some(Some(n))
    case Some(_) => None
  }

  /** A `bool` field with a default. */
  function OptionalBool(fields: seq<(string, Json)>, key: string, default: bool): Option<bool> {
    match Lookup(fields, key)
    case None => Some(default)
    case Some(JBool(b)) => Some(b)
    case Some(_) => None
  }

  /** A `PositiveInt` field with a default. */
  function PositiveIntOr(fields: seq<(string, Json)>, key: string, default: int): (r: Option<int>)
    requires default > 0
    ensures r.Some? ==> r.value > 0
  {
    match Lookup(fields, key)
    case None => Some(default)
    case Some(JInt(n)) => if n > 0 then Some(n) else None
    case Some(_) => None
  }

  /** A `PositiveFloat | PositiveInt | str | None = None` field. */
  function OptionalInterval(fields: seq<(string, Json)>): (r: Option<Option<Interval>>)
    ensures r.Some? ==> IntervalValid(r.value)
  {
    match Lookup(fields, "interval")
    case None => Some(None)
    case Some(JNull) => Some(None)
    case Some(JInt(n)) => if n > 0 then Some(Some(Seconds(n as real))) else None
    case Some(JReal(x)) => if x > 0.0 then Some(Some(Seconds(x))) else None
    case Some(JString(t)) => Some(Some(Text(t)))
    case Some(_) => None
  }

  /** `Metric`: extra fields forbidden, `address: NonNegativeInt` required,
      `description: str = ""`, `unit: Optional[str] = None`,
      `chunk_size: Optional[int] = None`. */
  function ParseMetric(j: Json): (r: Option<MetricConfig>)
    ensures r.Some? ==> r.value.Valid()
  {
    if !j.JObject? then None
    else
      var fields := j.fields;
      var address := Lookup(fields, "address");
      var description := StringOr(fields, "description", "");
      var unit := OptionalString(fields, "unit");
      var chunkSize := OptionalInt(fields, "chunk_size");
      if && OnlyFields(fields, METRIC_FIELDS)
         && address.Some? && address.value.JInt? && address.value.i >= 0
         && description.Some? && unit.Some? && chunkSize.Some?
      then Some(MetricConfig(address.value.i, description.value, unit.value, chunkSize.value))
      else None
  }

  /** Some member of `xs` is named `k`. */
  predicate HasName<V>(xs: seq<(string, V)>, k: string) {
    exists i :: 0 <= i < |xs| && xs[i].0 == k
  }

  /** No two members of `xs` share a name. */
  predicate DistinctNames<V>(xs: seq<(string, V)>) {
    forall i, j :: 0 <= i < j < |xs| ==> xs[i].0 != xs[j].0
  }

  /** The position of the member named `k`. */
  function NameIndex(d: seq<(string, Json)>, k: string): (i: nat)
    requires HasName(d, k)
    ensures i < |d| && d[i].0 == k
  {
    if d[0].0 == k then 0
    else
      assert HasName(d[1..], k) by {
        var j :| 0 <= j < |d| && d[j].0 == k;
        assert d[1..][j - 1].0 == k;
      }
      1 + NameIndex(d[1..], k)
  }

  /** `d[k] = v` on a dict `d`: an existing name keeps its place and takes
      the new value, a new name is added at the end. */
  function Store(d: seq<(string, Json)>, k: string, v: Json): (r: seq<(string, Json)>)
    requires DistinctNames(d)
    ensures DistinctNames(r)
    ensures HasName(d, k) ==> |r| == |d|
    ensures !HasName(d, k) ==> r == d + [(k, v)]
    ensures forall i :: 0 <= i < |r| && r[i].0 == k ==> r[i].1 == v
    ensures forall i :: 0 <= i < |r| && r[i].0 != k ==> i < |d| && r[i] == d[i]
    ensures forall n :: HasName(r, n) <==> HasName(d, n) || n == k
  {
    if HasName(d, k) then
      var i := NameIndex(d, k);
      var r := d[i := (k, v)];
      assert forall n :: HasName(r, n) ==> HasName(d, n) by {
        forall n | HasName(r, n) ensures HasName(d, n) {
          var j :| 0 <= j < |r| && r[j].0 == n;
          assert d[j].0 == n;
        }
      }
      r
    else
      var r := d + [(k, v)];
      assert r[|d|].0 == k;
      assert forall n :: HasName(d, n) ==> HasName(r, n) by {
        forall n | HasName(d, n) ensures HasName(r, n) {
          var j :| 0 <= j < |d| && d[j].0 == n;
          assert r[j].0 == n;
        }
      }
      r
  }

  /** The members of a JSON object as the Python dict `json.loads` makes of
      them: each name once, in the place of its first occurrence, with the
      value of its last occurrence. Without repeated names, the members
      themselves. */
  function DictItems(fields: seq<(string, Json)>): (d: seq<(string, Json)>)
    ensures DistinctNames(d)
    ensures forall n :: HasName(d, n) <==> HasName(fields, n)
    ensures forall i :: 0 <= i < |d| ==> Lookup(fields, d[i].0) == Some(d[i].1)
    ensures DistinctNames(fields) ==> d == fields
  {
    if fields == [] then []
    else
      var init, last := fields[..|fields| - 1], fields[|fields| - 1];
      assert fields == init + [last];
      var prev := DictItems(init);
      var d := Store(prev, last.0, last.1);
      DictItemsStep(init, last, prev, d);
      d
  }

  /** The inductive step of `DictItems`: storing the last member. */
  lemma DictItemsStep(init: seq<(string, Json)>, last: (string, Json), prev: seq<(string, Json)>,
                      d: seq<(string, Json)>)
    requires DistinctNames(prev)
    requires forall n :: HasName(prev, n) <==> HasName(init, n)
    requires forall i :: 0 <= i < |prev| ==> Lookup(init, prev[i].0) == Some(prev[i].1)
    requires DistinctNames(init) ==> prev == init
    requires d == Store(prev, last.0, last.1)
    ensures forall n :: HasName(d, n) <==> HasName(init + [last], n)
    ensures forall i :: 0 <= i < |d| ==> Lookup(init + [last], d[i].0) == Some(d[i].1)
    ensures DistinctNames(init + [last]) ==> d == init + [last]
  {
    var fields := init + [last];
    forall n ensures HasName(fields, n) <==> HasName(init, n) || n == last.0 {
      if HasName(init, n) {
        var j :| 0 <= j < |init| && init[j].0 == n;
        assert fields[j].0 == n;
      }
      if HasName(fields, n) && n != last.0 {
        var j :| 0 <= j < |fields| && fields[j].0 == n;
        assert init[j].0 == n;
      }
      assert fields[|init|].0 == last.0;
    }
    forall i | 0 <= i < |d| ensures Lookup(fields, d[i].0) == Some(d[i].1) {
      if d[i].0 == last.0 {
        LookupAt(fields, last.0, |init|);
      } else {
        LookupSkipsOtherKeys(init, d[i].0, last.0, last.1);
      }
    }
    if DistinctNames(fields) {
      assert DistinctNames(init) by {
        forall i, j | 0 <= i < j < |init| ensures init[i].0 != init[j].0 {
          assert fields[i] == init[i] && fields[j] == init[j];
        }
      }
      assert !HasName(init, last.0) by {
        forall j | 0 <= j < |init| ensures init[j].0 != last.0 {
          assert fields[j] == init[j] && fields[|init|] == last;
        }
      }
    }
  }

  /** The members, each a valid metric, in order. */
  function ParseMembers(fields: seq<(string, Json)>): (r: Option<seq<(string, MetricConfig)>>)
    ensures r.Some? ==> |r.value| == |fields|
    ensures r.Some? ==> forall i :: 0 <= i < |fields| ==>
      r.value[i].0 == fields[i].0 && ParseMetric(fields[i].1) == Some(r.value[i].1)
    ensures r.Some? <==> forall i :: 0 <= i < |fields| ==> ParseMetric(fields[i].1).Some?
  {
    if fields == [] then Some([])
    else
      match (ParseMetric(fields[0].1), ParseMembers(fields[1..]))
      case (Some(m), Some(rest)) => Some([(fields[0].0, m)] + rest)
      case _ => None
  }

  /** The `metrics` object as a `dict[str, Metric]`: every name of the
      object once, with its last value, which must be a valid metric. */
  function ParseMetrics(fields: seq<(string, Json)>): (r: Option<seq<(string, MetricConfig)>>)
    ensures r.Some? <==> forall i :: 0 <= i < |fields| ==>
      Lookup(fields, fields[i].0).Some? && ParseMetric(Lookup(fields, fields[i].0).value).Some?
    ensures r.Some? ==> DistinctNames(r.value)
    ensures r.Some? ==> forall n :: HasName(r.value, n) <==> HasName(fields, n)
    ensures r.Some? ==> forall i :: 0 <= i < |r.value| ==>
      Lookup(fields, r.value[i].0).Some? && ParseMetric(Lookup(fields, r.value[i].0).value) == Some(r.value[i].1)
  {
    ParseMembersNames(DictItems(fields));
    ParseMetricsAccepts(fields);
    ParseMetricsRejects(fields);
    ParseMembers(DictItems(fields))
  }

  /** Every name of a document has a value. */
  lemma {:induction false} LookupPresent(fields: seq<(string, Json)>, i: int)
    requires 0 <= i < |fields|
    ensures Lookup(fields, fields[i].0).Some?
  {
    if i > 0 {
      LookupPresent(fields[1..], i - 1);
    }
  }

  /** Parsed items keep the names of the dict's items, in order. */
  lemma ParseMembersNames(d: seq<(string, Json)>)
    requires DistinctNames(d)
    ensures ParseMembers(d).Some? ==> DistinctNames(ParseMembers(d).value)
    ensures ParseMembers(d).Some? ==> forall n :: HasName(ParseMembers(d).value, n) <==> HasName(d, n)
  {
    if ParseMembers(d).Some? {
      MembersNames(d, ParseMembers(d).value);
    }
  }

  lemma MembersNames(d: seq<(string, Json)>, ms: seq<(string, MetricConfig)>)
    requires ParseMembers(d) == Some(ms) && DistinctNames(d)
    ensures DistinctNames(ms)
    ensures forall n :: HasName(ms, n) <==> HasName(d, n)
  {
    forall n ensures HasName(ms, n) <==> HasName(d, n) {
      if HasName(ms, n) {
        var j :| 0 <= j < |ms| && ms[j].0 == n;
        assert d[j].0 == n;
      }
      if HasName(d, n) {
        var j :| 0 <= j < |d| && d[j].0 == n;
        assert ms[j].0 == n;
      }
    }
  }

  /** When the dict's items parse, so does the last value of every name. */
  lemma ParseMetricsAccepts(fields: seq<(string, Json)>)
    ensures var r := ParseMembers(DictItems(fields));
      r.Some? ==> forall i :: 0 <= i < |fields| ==>
        Lookup(fields, fields[i].0).Some? && ParseMetric(Lookup(fields, fields[i].0).value).Some?
    ensures var r := ParseMembers(DictItems(fields));
      r.Some? ==> forall i :: 0 <= i < |r.value| ==>
        Lookup(fields, r.value[i].0).Some? && ParseMetric(Lookup(fields, r.value[i].0).value) == Some(r.value[i].1)
  {
    var d := DictItems(fields);
    if ParseMembers(d).None? {
      return;
    }
    forall i | 0 <= i < |fields|
      ensures Lookup(fields, fields[i].0).Some? && ParseMetric(Lookup(fields, fields[i].0).value).Some?
    {
      assert HasName(fields, fields[i].0);
      var j :| 0 <= j < |d| && d[j].0 == fields[i].0;
    }
  }

  /** When some item of the dict fails to parse, the last value of its name
      is that item's. */
  lemma ParseMetricsRejects(fields: seq<(string, Json)>)
    ensures ParseMembers(DictItems(fields)).None? ==>
      exists i :: 0 <= i < |fields| && !(Lookup(fields, fields[i].0).Some? && ParseMetric(Lookup(fields, fields[i].0).value).Some?)
  {
    var d := DictItems(fields);
    if ParseMembers(d).Some? {
      return;
    }
    var j :| 0 <= j < |d| && ParseMetric(d[j].1).None?;
    assert HasName(fields, d[j].0) by {
      assert HasName(d, d[j].0);
    }
    var i :| 0 <= i < |fields| && fields[i].0 == d[j].0;
    assert Lookup(fields, fields[i].0) == Some(d[j].1);
  }

  /** `Group`: extra fields forbidden, `metrics` required and not empty
      (the `metrics_not_empty` validator), `double_sample: bool = False`. */
  function ParseGroup(j: Json): (r: Option<GroupConfig>)
    ensures r.Some? ==> r.value.Valid()
  {
    if !j.JObject? then None
    else
      var fields := j.fields;
      var interval := OptionalInterval(fields);
      var doubleSample := OptionalBool(fields, "double_sample", false);
      var metrics := Lookup(fields, "metrics");
      if && OnlyFields(fields, GROUP_FIELDS) && interval.Some? && doubleSample.Some?
         && metrics.Some? && metrics.value.JObject? && |metrics.value.fields| > 0
         && ParseMetrics(metrics.value.fields).Some?
      then Some(GroupConfig(interval.value, ParseMetrics(metrics.value.fields).value, doubleSample.value))
      else None
  }

  function ParseGroups(items: seq<Json>): (r: Option<seq<GroupConfig>>)
    ensures r.Some? ==> |r.value| == |items|
    ensures r.Some? ==> forall i :: 0 <= i < |items| ==> ParseGroup(items[i]) == Some(r.value[i])
    ensures r.Some? <==> forall i :: 0 <= i < |items| ==> ParseGroup(items[i]).Some?
  {
    if items == [] then Some([])
    else
      match (ParseGroup(items[0]), ParseGroups(items[1..]))
      case (Some(g), Some(rest)) => Some([g] + rest)
      case _ => None
  }

  /** `Host`: extra fields forbidden, `hosts: str`, `names: str` and
      `slave_id: int` required, `port: PositiveInt = 502`,
      `description: str = ""`, `groups` required with at least one item. */
  function ParseHost(j: Json): (r: Option<HostConfig>)
    ensures r.Some? ==> r.value.Valid()
  {
    if !j.JObject? then None
    else
      var fields := j.fields;
      var hosts := Lookup(fields, "hosts");
      var port := PositiveIntOr(fields, "port", DEFAULT_PORT);
      var names := Lookup(fields, "names");
      var slaveId := Lookup(fields, "slave_id");
      var description := StringOr(fields, "description", "");
      var groups := Lookup(fields, "groups");
      if && OnlyFields(fields, HOST_FIELDS)
         && hosts.Some? && hosts.value.JString?
         && port.Some?
         && names.Some? && names.value.JString?
         && slaveId.Some? && slaveId.value.JInt?
         && description.Some?
         && groups.Some? && groups.value.JArray? && |groups.value.items| > 0
         && ParseGroups(groups.value.items).Some?
      then Some(HostConfig(hosts.value.s, port.value, names.value.s, slaveId.value.i,
                           description.value, ParseGroups(groups.value.items).value))
      else None
  }

  function ParseHosts(items: seq<Json>): (r: Option<seq<HostConfig>>)
    ensures r.Some? ==> |r.value| == |items|
    ensures r.Some? ==> forall i :: 0 <= i < |items| ==> ParseHost(items[i]) == Some(r.value[i])
    ensures r.Some? <==> forall i :: 0 <= i < |items| ==> ParseHost(items[i]).Some?
  {
    if items == [] then Some([])
    else
      match (ParseHost(items[0]), ParseHosts(items[1..]))
      case (Some(h), Some(rest)) => Some([h] + rest)
      case _ => None
  }

  /** `Source`: extra fields ignored (the configuration store adds its own),
      `interval` optional, `hosts` required with at least one item. */
  function ParseSource(j: Json): (r: Option<SourceConfig>)
    ensures r.Some? ==> r.value.Valid()
  {
    if !j.JObject? then None
    else
      var interval := OptionalInterval(j.fields);
      var hosts := Lookup(j.fields, "hosts");
      if && interval.Some?
         && hosts.Some? && hosts.value.JArray? && |hosts.value.items| > 0
         && ParseHosts(hosts.value.items).Some?
      then Some(SourceConfig(interval.value, ParseHosts(hosts.value.items).value))
      else None
  }

  // Rendering typed records back into documents, and the round trips.

  function OptionalStringJson(v: Option<string>): Json {
    if v.Some? then JString(v.value) else JNull
  }

  function OptionalIntJson(v: Option<int>): Json {
    if v.Some? then JInt(v.value) else JNull
  }

  function IntervalJson(v: Option<Interval>): Json {
    match v
    case None => JNull
    case Some(Seconds(x)) => JReal(x)
    case Some(Text(t)) => JString(t)
  }

  function MetricJson(m: MetricConfig): Json {
    JObject([("address", JInt(m.address)), ("description", JString(m.description)),
             ("unit", OptionalStringJson(m.unit)), ("chunk_size", OptionalIntJson(m.chunkSize))])
  }

  function MetricsJson(ms: seq<(string, MetricConfig)>): (fields: seq<(string, Json)>)
    ensures |fields| == |ms|
    ensures forall i :: 0 <= i < |ms| ==> fields[i] == (ms[i].0, MetricJson(ms[i].1))
  {
    if ms == [] then [] else [(ms[0].0, MetricJson(ms[0].1))] + MetricsJson(ms[1..])
  }

  function GroupJson(g: GroupConfig): Json {
    JObject([("interval", IntervalJson(g.interval)), ("metrics", JObject(MetricsJson(g.metrics))),
             ("double_sample", JBool(g.doubleSample))])
  }

  function GroupsJson(gs: seq<GroupConfig>): (items: seq<Json>)
    ensures |items| == |gs|
  {
    if gs == [] then [] else [GroupJson(gs[0])] + GroupsJson(gs[1..])
  }

  function HostJson(h: HostConfig): Json {
    JObject([("hosts", JString(h.hosts)), ("port", JInt(h.port)), ("names", JString(h.names)),
             ("slave_id", JInt(h.slaveId)), ("description", JString(h.description)),
             ("groups", JArray(GroupsJson(h.groups)))])
  }

  function HostsJson(hs: seq<HostConfig>): (items: seq<Json>)
    ensures |items| == |hs|
  {
    if hs == [] then [] else [HostJson(hs[0])] + HostsJson(hs[1..])
  }

  function SourceJson(c: SourceConfig): Json {
    JObject([("interval", IntervalJson(c.interval)), ("hosts", JArray(HostsJson(c.hosts)))])
  }

  /** ParseHost from its parts: a host record whose fields read as given. */
  lemma ParseHostOf(fields: seq<(string, Json)>, hosts: string, port: int, names: string, slaveId: int,
                    description: string, items: seq<Json>, groups: seq<GroupConfig>)
    requires OnlyFields(fields, HOST_FIELDS)
    requires Lookup(fields, "hosts") == Some(JString(hosts))
    requires PositiveIntOr(fields, "port", DEFAULT_PORT) == Some(port)
    requires Lookup(fields, "names") == Some(JString(names))
    requires Lookup(fields, "slave_id") == Some(JInt(slaveId))
    requires StringOr(fields, "description", "") == Some(description)
    requires Lookup(fields, "groups") == Some(JArray(items)) && |items| > 0
    requires ParseGroups(items) == Some(groups)
    ensures ParseHost(JObject(fields)) == Some(HostConfig(hosts, port, names, slaveId, description, groups))
  {
  }

  /** ParseGroup from its parts: a group record whose fields read as given. */
  lemma ParseGroupOf(fields: seq<(string, Json)>, interval: Option<Interval>, doubleSample: bool,
                     members: seq<(string, Json)>, metrics: seq<(string, MetricConfig)>)
    requires OnlyFields(fields, GROUP_FIELDS)
    requires OptionalInterval(fields) == Some(interval)
    requires OptionalBool(fields, "double_sample", false) == Some(doubleSample)
    requires Lookup(fields, "metrics") == Some(JObject(members)) && |members| > 0
    requires ParseMetrics(members) == Some(metrics)
    ensures ParseGroup(JObject(fields)) == Some(GroupConfig(interval, metrics, doubleSample))
  {
  }

  /** Every valid metric record is accepted back from its own document. */
  lemma MetricRoundTrip(m: MetricConfig)
    requires m.Valid()
    ensures ParseMetric(MetricJson(m)) == Some(m)
  {
    var fields := MetricJson(m).fields;
    LookupAt(fields, "address", 0);
    LookupAt(fields, "description", 1);
    LookupAt(fields, "unit", 2);
    LookupAt(fields, "chunk_size", 3);
  }

  /** Every table of valid metrics with distinct names is accepted back
      from its own object. */
  lemma MetricsRoundTrip(ms: seq<(string, MetricConfig)>)
    requires DistinctNames(ms) && forall i :: 0 <= i < |ms| ==> ms[i].1.Valid()
    ensures ParseMetrics(MetricsJson(ms)) == Some(ms)
  {
    var fields := MetricsJson(ms);
    assert DistinctNames(fields) by {
      forall i, j | 0 <= i < j < |fields| ensures fields[i].0 != fields[j].0 {
        assert fields[i].0 == ms[i].0 && fields[j].0 == ms[j].0;
      }
    }
    MembersRoundTrip(ms);
  }

  lemma {:induction false} MembersRoundTrip(ms: seq<(string, MetricConfig)>)
    requires forall i :: 0 <= i < |ms| ==> ms[i].1.Valid()
    ensures ParseMembers(MetricsJson(ms)) == Some(ms)
  {
    if ms != [] {
      MetricRoundTrip(ms[0].1);
      MembersRoundTrip(ms[1..]);
      ParseMembersCons(ms[0].0, MetricJson(ms[0].1), MetricsJson(ms[1..]), ms[0].1, ms[1..]);
      assert ms == [(ms[0].0, ms[0].1)] + ms[1..];
    }
  }

  /** ParseMembers accepts one more member in front. */
  lemma ParseMembersCons(name: string, j: Json, rest: seq<(string, Json)>, m: MetricConfig,
                         ms: seq<(string, MetricConfig)>)
    requires ParseMetric(j) == Some(m) && ParseMembers(rest) == Some(ms)
    ensures ParseMembers([(name, j)] + rest) == Some([(name, m)] + ms)
  {
    var fields := [(name, j)] + rest;
    assert fields[0] == (name, j) && fields[1..] == rest;
  }

  lemma GroupRoundTrip(g: GroupConfig)
    requires g.Valid()
    ensures ParseGroup(GroupJson(g)) == Some(g)
  {
    var fields := GroupJson(g).fields;
    LookupAt(fields, "interval", 0);
    LookupAt(fields, "metrics", 1);
    LookupAt(fields, "double_sample", 2);
    assert OptionalInterval(fields) == Some(g.interval);
    assert OptionalBool(fields, "double_sample", false) == Some(g.doubleSample);
    assert OnlyFields(fields, GROUP_FIELDS);
    MetricsRoundTrip(g.metrics);
  }

  lemma {:induction false} GroupsRoundTrip(gs: seq<GroupConfig>)
    requires forall i :: 0 <= i < |gs| ==> gs[i].Valid()
    ensures ParseGroups(GroupsJson(gs)) == Some(gs)
  {
    if gs != [] {
      GroupRoundTrip(gs[0]);
      GroupsRoundTrip(gs[1..]);
      ParseGroupsCons(GroupJson(gs[0]), GroupsJson(gs[1..]), gs[0], gs[1..]);
      assert gs == [gs[0]] + gs[1..];
    }
  }

  /** ParseGroups accepts one more item in front. */
  lemma ParseGroupsCons(j: Json, rest: seq<Json>, g: GroupConfig, gs: seq<GroupConfig>)
    requires ParseGroup(j) == Some(g) && ParseGroups(rest) == Some(gs)
    ensures ParseGroups([j] + rest) == Some([g] + gs)
  {
    var items := [j] + rest;
    assert items[0] == j && items[1..] == rest;
  }

  lemma HostJsonFields(h: HostConfig)
    requires h.port > 0
    ensures var fields := HostJson(h).fields;
      && Lookup(fields, "hosts") == Some(JString(h.hosts))
      && PositiveIntOr(fields, "port", DEFAULT_PORT) == Some(h.port)
      && Lookup(fields, "names") == Some(JString(h.names))
      && Lookup(fields, "slave_id") == Some(JInt(h.slaveId))
      && StringOr(fields, "description", "") == Some(h.description)
      && Lookup(fields, "groups") == Some(JArray(GroupsJson(h.groups)))
      && OnlyFields(fields, HOST_FIELDS)
  {
    var fields := HostJson(h).fields;
    assert Lookup(fields, "hosts") == Some(JString(h.hosts)) by { LookupAt(fields, "hosts", 0); }
    assert Lookup(fields, "port") == Some(JInt(h.port)) by { LookupAt(fields, "port", 1); }
    assert Lookup(fields, "names") == Some(JString(h.names)) by { LookupAt(fields, "names", 2); }
    assert Lookup(fields, "slave_id") == Some(JInt(h.slaveId)) by { LookupAt(fields, "slave_id", 3); }
    assert Lookup(fields, "description") == Some(JString(h.description)) by { LookupAt(fields, "description", 4); }
    assert Lookup(fields, "groups") == Some(JArray(GroupsJson(h.groups))) by { LookupAt(fields, "groups", 5); }
  }

  lemma HostRoundTrip(h: HostConfig)
    requires h.Valid()
    ensures ParseHost(HostJson(h)) == Some(h)
  {
    HostJsonFields(h);
    GroupsRoundTrip(h.groups);
    ParseHostOf(HostJson(h).fields, h.hosts, h.port, h.names, h.slaveId, h.description,
                GroupsJson(h.groups), h.groups);
  }

  lemma {:induction false} HostsRoundTrip(hs: seq<HostConfig>)
    requires forall i :: 0 <= i < |hs| ==> hs[i].Valid()
    ensures ParseHosts(HostsJson(hs)) == Some(hs)
  {
    if hs != [] {
      var h, rest := hs[0], hs[1..];
      assert hs == [h] + rest;
      assert ParseHost(HostJson(h)) == Some(h) by {
        HostRoundTrip(h);
      }
      HostsRoundTrip(rest);
      ParseHostsCons(HostJson(h), HostsJson(rest), h, rest);
    }
  }

  /** ParseHosts accepts one more item in front. */
  lemma ParseHostsCons(j: Json, rest: seq<Json>, h: HostConfig, hs: seq<HostConfig>)
    requires ParseHost(j) == Some(h) && ParseHosts(rest) == Some(hs)
    ensures ParseHosts([j] + rest) == Some([h] + hs)
  {
    var items := [j] + rest;
    assert items[0] == j && items[1..] == rest;
  }

  /** A document is accepted exactly when it describes a valid configuration:
      every valid configuration is accepted back from its own document, and
      every accepted document yields a valid one (ParseSource's contract). */
  lemma SourceRoundTrip(c: SourceConfig)
    requires c.Valid()
    ensures ParseSource(SourceJson(c)) == Some(c)
  {
    var fields := SourceJson(c).fields;
    LookupAt(fields, "interval", 0);
    LookupAt(fields, "hosts", 1);
    assert OptionalInterval(fields) == Some(c.interval);
    HostsRoundTrip(c.hosts);
  }

  // Field constraints and defaults.

  /** A metric is accepted only with an integer `address` that is not negative. */
  lemma MetricAddressRequired(j: Json)
    requires ParseMetric(j).Some?
    ensures j.JObject? && Lookup(j.fields, "address") == Some(JInt(ParseMetric(j).value.address))
    ensures ParseMetric(j).value.address >= 0
  {
  }

  /** A metric with only an address gets the defaults: empty description, no unit, no chunk size. */
  lemma MetricDefaults(address: int)
    requires address >= 0
    ensures ParseMetric(JObject([("address", JInt(address))])) == Some(MetricConfig(address, "", None, None))
  {
    var fields := [("address", JInt(address))];
    assert Lookup(fields, "address") == Some(JInt(address));
    assert Lookup(fields, "description") == None;
    assert Lookup(fields, "unit") == None;
    assert Lookup(fields, "chunk_size") == None;
  }

  /** A field outside the schema rejects a metric, a group and a host. */
  lemma StrictRecordsRejectUnknownFields(fields: seq<(string, Json)>, i: int)
    requires 0 <= i < |fields|
    requires fields[i].0 !in METRIC_FIELDS + GROUP_FIELDS + HOST_FIELDS
    ensures ParseMetric(JObject(fields)) == None
    ensures ParseGroup(JObject(fields)) == None
    ensures ParseHost(JObject(fields)) == None
  {
  }

  /** A group whose `metrics` object is empty is rejected. */
  lemma EmptyMetricsRejected(fields: seq<(string, Json)>)
    requires Lookup(fields, "metrics") == Some(JObject([]))
    ensures ParseGroup(JObject(fields)) == None
  {
  }

  /** A host whose `groups` list is empty is rejected. */
  lemma EmptyGroupsRejected(fields: seq<(string, Json)>)
    requires Lookup(fields, "groups") == Some(JArray([]))
    ensures ParseHost(JObject(fields)) == None
  {
  }

  /** A source whose `hosts` list is empty is rejected. */
  lemma EmptyHostsRejected(fields: seq<(string, Json)>)
    requires Lookup(fields, "hosts") == Some(JArray([]))
    ensures ParseSource(JObject(fields)) == None
  {
  }

  /** A host that leaves out `port` and `description` gets port 502 and an empty description. */
  lemma HostDefaults(hosts: string, names: string, slaveId: int, groups: seq<GroupConfig>)
    requires |groups| > 0 && forall i :: 0 <= i < |groups| ==> groups[i].Valid()
    ensures ParseHost(JObject([("hosts", JString(hosts)), ("names", JString(names)),
                               ("slave_id", JInt(slaveId)), ("groups", JArray(GroupsJson(groups)))]))
            == Some(HostConfig(hosts, DEFAULT_PORT, names, slaveId, "", groups))
  {
    var items := GroupsJson(groups);
    var fields := [("hosts", JString(hosts)), ("names", JString(names)),
                   ("slave_id", JInt(slaveId)), ("groups", JArray(items))];
    MinimalHostFields(hosts, names, slaveId, items);
    GroupsRoundTrip(groups);
    ParseHostOf(fields, hosts, DEFAULT_PORT, names, slaveId, "", items, groups);
  }

  lemma MinimalHostFields(hosts: string, names: string, slaveId: int, items: seq<Json>)
    ensures var fields := [("hosts", JString(hosts)), ("names", JString(names)),
                           ("slave_id", JInt(slaveId)), ("groups", JArray(items))];
      && Lookup(fields, "hosts") == Some(JString(hosts))
      && Lookup(fields, "names") == Some(JString(names))
      && Lookup(fields, "slave_id") == Some(JInt(slaveId))
      && Lookup(fields, "groups") == Some(JArray(items))
      && PositiveIntOr(fields, "port", DEFAULT_PORT) == Some(DEFAULT_PORT)
      && StringOr(fields, "description", "") == Some("")
      && OnlyFields(fields, HOST_FIELDS)
  {
    var fields := [("hosts", JString(hosts)), ("names", JString(names)),
                   ("slave_id", JInt(slaveId)), ("groups", JArray(items))];
    assert Lookup(fields, "hosts") == Some(JString(hosts)) by { LookupAt(fields, "hosts", 0); }
    assert Lookup(fields, "names") == Some(JString(names)) by { LookupAt(fields, "names", 1); }
    assert Lookup(fields, "slave_id") == Some(JInt(slaveId)) by { LookupAt(fields, "slave_id", 2); }
    assert Lookup(fields, "groups") == Some(JArray(items)) by { LookupAt(fields, "groups", 3); }
    assert Lookup(fields, "port") == None by { LookupAbsent(fields, "port"); }
    assert Lookup(fields, "description") == None by { LookupAbsent(fields, "description"); }
  }

  /** A group that leaves out `interval` and `double_sample` has no interval of its own and single sampling. */
  lemma GroupDefaults(metrics: seq<(string, MetricConfig)>)
    requires |metrics| > 0 && DistinctNames(metrics) && forall i :: 0 <= i < |metrics| ==> metrics[i].1.Valid()
    ensures ParseGroup(JObject([("metrics", JObject(MetricsJson(metrics)))]))
            == Some(GroupConfig(None, metrics, false))
  {
    var members := MetricsJson(metrics);
    MinimalGroupFields(members);
    MetricsRoundTrip(metrics);
    ParseGroupOf([("metrics", JObject(members))], None, false, members, metrics);
  }

  lemma MinimalGroupFields(members: seq<(string, Json)>)
    ensures var fields := [("metrics", JObject(members))];
      && Lookup(fields, "metrics") == Some(JObject(members))
      && OptionalInterval(fields) == Some(None)
      && OptionalBool(fields, "double_sample", false) == Some(false)
      && OnlyFields(fields, GROUP_FIELDS)
  {
    var fields := [("metrics", JObject(members))];
    LookupAt(fields, "metrics", 0);
    assert Lookup(fields, "interval") == None by { LookupAbsent(fields, "interval"); }
    assert Lookup(fields, "double_sample") == None by { LookupAbsent(fields, "double_sample"); }
  }

  lemma SingleGroup(j: Json, g: GroupConfig)
    requires ParseGroup(j) == Some(g)
    ensures ParseGroups([j]) == Some([g])
  {
    assert [j][1..] == [];
    assert ParseGroups([j][1..]) == Some([]);
    assert [g] + [] == [g];
  }

  lemma SingleHost(j: Json, h: HostConfig)
    requires ParseHost(j) == Some(h)
    ensures ParseHosts([j]) == Some([h])
  {
    assert [j][1..] == [];
    assert ParseHosts([j][1..]) == Some([]);
    assert [h] + [] == [h];
  }

  lemma SingleMetric(key: string, j: Json, m: MetricConfig)
    requires ParseMetric(j) == Some(m)
    ensures ParseMetrics([(key, j)]) == Some([(key, m)])
  {
    assert DictItems([(key, j)]) == [(key, j)];
    assert [(key, j)][1..] == [];
    assert ParseMembers([(key, j)][1..]) == Some([]);
    assert [(key, m)] + [] == [(key, m)];
  }

  lemma {:induction false} LookupSkipsOtherKeys(fields: seq<(string, Json)>, key: string, k: string, v: Json)
    requires k != key
    ensures Lookup(fields + [(k, v)], key) == Lookup(fields, key)
  {
    if fields != [] {
      assert (fields + [(k, v)])[1..] == fields[1..] + [(k, v)];
      LookupSkipsOtherKeys(fields[1..], key, k, v);
    }
  }

  /** The source record ignores fields outside its schema (such as the
      configuration store's `_ref` and `_rev`). */
  lemma SourceIgnoresUnknownFields(fields: seq<(string, Json)>, k: string, v: Json)
    requires k != "interval" && k != "hosts"
    ensures ParseSource(JObject(fields + [(k, v)])) == ParseSource(JObject(fields))
  {
    LookupSkipsOtherKeys(fields, "interval", k, v);
    LookupSkipsOtherKeys(fields, "hosts", k, v);
    assert OptionalInterval(fields + [(k, v)]) == OptionalInterval(fields);
  }

  // Documents from the project's configuration tests.

  /** The minimal document: store fields `_ref` and `_rev`, one host with its
      required fields, one group with one metric (the tests use `test[1-3]`,
      `example.test[1-3]`, slave 1 and metric `foo` at address 0). It is
      accepted with every default filled in (and no interval). */
  lemma MinimalDocumentAccepted(ref: string, rev: string, hosts: string, names: string, slaveId: int,
                                metric: string, address: nat)
    ensures ParseSource(JObject([
      ("_ref", JString(ref)), ("_rev", JString(rev)),
      ("hosts", JArray([JObject([
        ("hosts", JString(hosts)), ("names", JString(names)), ("slave_id", JInt(slaveId)),
        ("groups", JArray([JObject([("metrics", JObject([(metric, JObject([("address", JInt(address))]))]))])]))])]))]))
      == Some(SourceConfig(None, [HostConfig(hosts, DEFAULT_PORT, names, slaveId, "",
           [GroupConfig(None, [(metric, MetricConfig(address, "", None, None))], false)])]))
  {
    MinimalHostAccepted(hosts, names, slaveId, metric, address);
    var hostJson := JObject([
      ("hosts", JString(hosts)), ("names", JString(names)), ("slave_id", JInt(slaveId)),
      ("groups", JArray([JObject([("metrics", JObject([(metric, JObject([("address", JInt(address))]))]))])]))]);
    var fields := [("_ref", JString(ref)), ("_rev", JString(rev)), ("hosts", JArray([hostJson]))];
    LookupAt(fields, "hosts", 2);
    LookupAbsent(fields, "interval");
  }

  /** The host of the minimal document. */
  lemma MinimalHostAccepted(hosts: string, names: string, slaveId: int, metric: string, address: nat)
    ensures ParseHosts([JObject([
        ("hosts", JString(hosts)), ("names", JString(names)), ("slave_id", JInt(slaveId)),
        ("groups", JArray([JObject([("metrics", JObject([(metric, JObject([("address", JInt(address))]))]))])]))])])
      == Some([HostConfig(hosts, DEFAULT_PORT, names, slaveId, "",
           [GroupConfig(None, [(metric, MetricConfig(address, "", None, None))], false)])])
  {
    var group := GroupConfig(None, [(metric, MetricConfig(address, "", None, None))], false);
    var groupJson := JObject([("metrics", JObject([(metric, JObject([("address", JInt(address))]))]))]);
    MinimalGroupAccepted(metric, address);
    var items := [groupJson];
    var host := HostConfig(hosts, DEFAULT_PORT, names, slaveId, "", [group]);
    var hostFields := [("hosts", JString(hosts)), ("names", JString(names)),
                       ("slave_id", JInt(slaveId)), ("groups", JArray(items))];
    MinimalHostFields(hosts, names, slaveId, items);
    ParseHostOf(hostFields, hosts, DEFAULT_PORT, names, slaveId, "", items, [group]);
    SingleHost(JObject(hostFields), host);
  }

  /** The group of the minimal document. */
  lemma MinimalGroupAccepted(metric: string, address: nat)
    ensures ParseGroups([JObject([("metrics", JObject([(metric, JObject([("address", JInt(address))]))]))])])
      == Some([GroupConfig(None, [(metric, MetricConfig(address, "", None, None))], false)])
  {
    var m := MetricConfig(address, "", None, None);
    var members := [(metric, JObject([("address", JInt(address))]))];
    MetricDefaults(address);
    SingleMetric(metric, JObject([("address", JInt(address))]), m);
    var groupJson := JObject([("metrics", JObject(members))]);
    MinimalGroupFields(members);
    ParseGroupOf(groupJson.fields, None, false, members, [(metric, m)]);
    SingleGroup(groupJson, GroupConfig(None, [(metric, m)], false));
  }

  /** A metric with the misspelt field `descryption` is rejected. */
  lemma MisspeltFieldRejected()
    ensures ParseMetric(JObject([("address", JInt(0)), ("descryption", JString("Find the tpyo"))])) == None
  {
    StrictRecordsRejectUnknownFields([("address", JInt(0)), ("descryption", JString("Find the tpyo"))], 1);
  }

  /** A metric without an address, or whose address is the empty string, is rejected. */
  lemma MissingOrEmptyAddressRejected()
    ensures ParseMetric(JObject([])) == None
    ensures ParseMetric(JObject([("address", JString(""))])) == None
  {
  }
}
