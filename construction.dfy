/** Building the bridge's objects from a validated configuration: metric
    names, the interval fallback, descriptions, chunk sizes, the register
    window of a group, the expansion of a host entry into hosts, and the
    metadata declared for all metrics. */
module Construction {
  import opened Common
  import opened Text
  import opened ConfigModel
  import opened Registers

  /** `combine_name`: trailing dots of the prefix and leading dots of the name
      are dropped, and the two are joined by exactly one dot. The name must not
      consist of dots only (an assertion). */
  function CombineName(prefix: string, name: string): (r: string)
    requires TrimStart(name, IsDot) != []
    ensures TrimEnd(prefix, IsDot) == [] ==> r == TrimStart(name, IsDot)
    ensures TrimEnd(prefix, IsDot) != [] ==>
      var p := TrimEnd(prefix, IsDot);
      |r| == |p| + 1 + |TrimStart(name, IsDot)|
      && r[..|p|] == p && r[|p|] == '.' && r[|p| + 1..] == TrimStart(name, IsDot)
      && r[|p| - 1] != '.' && r[|p| + 1] != '.'
  {
    var p := TrimEnd(prefix, IsDot);
    var n := TrimStart(name, IsDot);
    if p == [] then n else p + "." + n
  }

  /** Extra dots at the join point make no difference to the combined name. */
  lemma CombineNameIgnoresDotsAtJoin(prefix: string, name: string)
    requires TrimStart(name, IsDot) != []
    ensures CombineName(prefix + ".", name) == CombineName(prefix, name)
    ensures CombineName(prefix, "." + name) == CombineName(prefix, name)
  {
    TrimEndDropsLast(prefix, '.', IsDot);
    TrimStartDropsFirst('.', name, IsDot);
  }

  /** `extract_interval`: no interval field means no interval; otherwise
      metricq's `Timedelta` turns the seconds or the duration string into
      nanoseconds. That parsing is passed in as `resolve`, and it may raise. */
  function ExtractInterval(field: Option<Interval>, resolve: Interval -> Result<int>): (r: Result<Option<int>>)
    ensures field.None? ==> r == Ok(None)
    ensures field.Some? && resolve(field.value).Err? ==> r == Err(resolve(field.value).error)
    ensures field.Some? && resolve(field.value).Ok? ==> r == Ok(Some(resolve(field.value).value))
  {
    if field.None? then Ok(None)
    else
      match resolve(field.value)
      case Err(e) => Err(e)
      case Ok(interval) => Ok(Some(interval))
  }

  /** The interval of a group: its own, or else the source's default; with
      neither the configuration is rejected ("missing interval"). An own
      interval that cannot be parsed raises its parse error. */
  function GroupInterval(field: Option<Interval>, defaultInterval: Option<int>,
                         resolve: Interval -> Result<int>): (r: Result<int>)
    ensures field.Some? ==> r == resolve(field.value)
    ensures field.None? && defaultInterval.Some? ==> r == Ok(defaultInterval.value)
    ensures field.None? && defaultInterval.None? ==> r == Err(MissingInterval)
  {
    match ExtractInterval(field, resolve)
    case Err(e) => Err(e)
    case Ok(Some(interval)) => Ok(interval)
    case Ok(None) => if defaultInterval.Some? then Ok(defaultInterval.value) else Err(MissingInterval)
  }

  /** A metric's description: the host's description, a space, then the
      metric's own, or the metric's own alone when the host has none. */
  function MetricDescription(hostDescription: string, description: string): (r: string)
    ensures |r| >= |description| && r[|r| - |description|..] == description
    ensures hostDescription == "" ==> r == description
    ensures hostDescription != "" ==>
      |r| == |hostDescription| + 1 + |description|
      && r[..|hostDescription|] == hostDescription && r[|hostDescription|] == ' '
  {
    if hostDescription == "" then description else hostDescription + " " + description
  }

  /** The chunk size of a metric: the configured one, or, for intervals below
      one second, as many intervals as fit in one second (`1s // interval`). */
  function ChunkSize(configured: Option<int>, interval: int): (r: Result<Option<int>>)
    ensures configured.Some? ==> r == Ok(configured)
    ensures configured.None? && interval >= NANOS_PER_SECOND ==> r == Ok(None)
    ensures configured.None? && interval == 0 ==> r == Err(DivisionByZero)
    ensures configured.None? && 0 < interval < NANOS_PER_SECOND ==>
      r.Ok? && r.value.Some? && r.value.value >= 1
      && r.value.value * interval <= NANOS_PER_SECOND < (r.value.value + 1) * interval
    ensures configured.None? && interval < 0 ==> r == Ok(Some(FloorDiv(NANOS_PER_SECOND, interval)))
  {
    if configured.Some? || interval >= NANOS_PER_SECOND then Ok(configured)
    else if interval == 0 then Err(DivisionByZero)
    else Ok(Some(FloorDiv(NANOS_PER_SECOND, interval)))
  }

  /** A metric as the group holds it. */
  datatype Metric = Metric(
    name: string,
    address: int,
    description: string,
    unit: Option<string>,
    chunkSize: Option<int>)

  /** `Metric.__init__`, preceded by the `combine_name` call that names it. */
  function BuildMetric(prefix: string, hostDescription: string, interval: int,
                       name: string, config: MetricConfig): (r: Result<Metric>)
    ensures r.Err? <==> TrimStart(name, IsDot) == [] || ChunkSize(config.chunkSize, interval).Err?
    ensures TrimStart(name, IsDot) == [] ==> r == Err(EmptyMetricName)
    ensures r.Ok? ==>
      && r.value.name == CombineName(prefix, name)
      && r.value.address == config.address
      && r.value.description == MetricDescription(hostDescription, config.description)
      && r.value.unit == config.unit
      && Ok(r.value.chunkSize) == ChunkSize(config.chunkSize, interval)
  {
    if TrimStart(name, IsDot) == [] then Err(EmptyMetricName)
    else
      match ChunkSize(config.chunkSize, interval)
      case Err(e) => Err(e)
      case Ok(chunkSize) =>
        Ok(Metric(CombineName(prefix, name), config.address,
                  MetricDescription(hostDescription, config.description), config.unit, chunkSize))
  }

  /** The metrics of a group, in configuration order; the first failure wins. */
  function BuildMetrics(prefix: string, hostDescription: string, interval: int,
                        configs: seq<(string, MetricConfig)>): (r: Result<seq<Metric>>)
    ensures r.Ok? ==> |r.value| == |configs|
    ensures r.Ok? ==> forall i :: 0 <= i < |configs| ==>
      BuildMetric(prefix, hostDescription, interval, configs[i].0, configs[i].1) == Ok(r.value[i])
    ensures r.Err? <==>
      exists i :: 0 <= i < |configs| && BuildMetric(prefix, hostDescription, interval, configs[i].0, configs[i].1).Err?
  {
    MapResults(configs, (c: (string, MetricConfig)) => BuildMetric(prefix, hostDescription, interval, c.0, c.1))
  }

  /** The lowest address among the metrics: the group's `base_address`. */
  function MinAddress(metrics: seq<Metric>): int
    requires |metrics| > 0
  {
    if |metrics| == 1 then metrics[0].address
    else
      var rest := MinAddress(metrics[1..]);
      if metrics[0].address <= rest then metrics[0].address else rest
  }

  /** The first register after the highest value: `max(address + 2)`. */
  function EndAddress(metrics: seq<Metric>): int
    requires |metrics| > 0
  {
    if |metrics| == 1 then metrics[0].address + REGISTERS_PER_VALUE
    else
      var rest := EndAddress(metrics[1..]);
      if metrics[0].address + REGISTERS_PER_VALUE >= rest then metrics[0].address + REGISTERS_PER_VALUE else rest
  }

  /** MinAddress is the minimum: no metric lies below it and some metric lies at it. */
  lemma {:induction false} MinAddressIsMinimum(metrics: seq<Metric>)
    requires |metrics| > 0
    ensures forall i :: 0 <= i < |metrics| ==> MinAddress(metrics) <= metrics[i].address
    ensures exists i :: 0 <= i < |metrics| && metrics[i].address == MinAddress(metrics)
  {
    if |metrics| == 1 {
      assert metrics[0].address == MinAddress(metrics);
    } else {
      var rest := metrics[1..];
      MinAddressIsMinimum(rest);
      assert forall i :: 1 <= i < |metrics| ==> metrics[i] == rest[i - 1];
      var k :| 0 <= k < |rest| && rest[k].address == MinAddress(rest);
      if metrics[0].address <= MinAddress(rest) {
        assert metrics[0].address == MinAddress(metrics);
      } else {
        assert metrics[k + 1].address == MinAddress(metrics);
      }
    }
  }

  /** EndAddress is the maximum of `address + 2`: every value ends at or before
      it and some value ends exactly there. */
  lemma {:induction false} EndAddressIsMaximum(metrics: seq<Metric>)
    requires |metrics| > 0
    ensures forall i :: 0 <= i < |metrics| ==> metrics[i].address + REGISTERS_PER_VALUE <= EndAddress(metrics)
    ensures exists i :: 0 <= i < |metrics| && metrics[i].address + REGISTERS_PER_VALUE == EndAddress(metrics)
  {
    if |metrics| == 1 {
      assert metrics[0].address + REGISTERS_PER_VALUE == EndAddress(metrics);
    } else {
      var rest := metrics[1..];
      EndAddressIsMaximum(rest);
      assert forall i :: 1 <= i < |metrics| ==> metrics[i] == rest[i - 1];
      var k :| 0 <= k < |rest| && rest[k].address + REGISTERS_PER_VALUE == EndAddress(rest);
      if metrics[0].address + REGISTERS_PER_VALUE >= EndAddress(rest) {
        assert metrics[0].address + REGISTERS_PER_VALUE == EndAddress(metrics);
      } else {
        assert metrics[k + 1].address + REGISTERS_PER_VALUE == EndAddress(metrics);
      }
    }
  }

  /** A metric group as built: its interval, whether it double-samples, and
      the one block of registers it reads, `[baseAddress, baseAddress + numRegisters)`. */
  datatype Group = Group(
    interval: int,
    doubleSample: bool,
    baseAddress: int,
    numRegisters: int,
    metrics: seq<Metric>)

  /** The register block covers exactly the metrics, from the lowest address
      to the end of the highest value. */
  predicate WellFormed(g: Group) {
    && |g.metrics| > 0
    && g.baseAddress == MinAddress(g.metrics)
    && g.numRegisters == EndAddress(g.metrics) - g.baseAddress
  }

  predicate AllWellFormed(gs: seq<Group>) {
    forall i :: 0 <= i < |gs| ==> WellFormed(gs[i])
  }

  /** Where a metric's value starts in the group's packed buffer. */
  function Offset(m: Metric, baseAddress: int): int {
    (m.address - baseAddress) * BYTES_PER_REGISTER
  }

  /** Every metric's 4-byte window lies inside the group's buffer of
      `2 * numRegisters` bytes, and the block holds at least one value. */
  lemma WindowsInsideBuffer(g: Group)
    requires WellFormed(g)
    ensures g.numRegisters >= REGISTERS_PER_VALUE
    ensures forall i :: 0 <= i < |g.metrics| ==>
      0 <= Offset(g.metrics[i], g.baseAddress)
      && Offset(g.metrics[i], g.baseAddress) + BYTES_PER_VALUE <= BYTES_PER_REGISTER * g.numRegisters
  {
    MinAddressIsMinimum(g.metrics);
    EndAddressIsMaximum(g.metrics);
    var i :| 0 <= i < |g.metrics| && g.metrics[i].address == g.baseAddress;
    assert g.metrics[i].address + REGISTERS_PER_VALUE <= EndAddress(g.metrics);
  }

  /** `MetricGroup.__init__`: interval (own or default), the metrics, then the
      register block. */
  function BuildGroup(prefix: string, hostDescription: string, defaultInterval: Option<int>,
                      resolve: Interval -> Result<int>, config: GroupConfig): (r: Result<Group>)
    requires config.Valid()
    ensures var interval := GroupInterval(config.interval, defaultInterval, resolve);
      interval.Err? ==> r == Err(interval.error)
    ensures var interval := GroupInterval(config.interval, defaultInterval, resolve);
      interval.Ok? ==>
        var metrics := BuildMetrics(prefix, hostDescription, interval.value, config.metrics);
        && (r.Ok? <==> metrics.Ok?)
        && (metrics.Err? ==> r == Err(metrics.error))
    ensures r.Ok? ==> WellFormed(r.value)
    ensures r.Ok? ==>
      && Ok(r.value.interval) == GroupInterval(config.interval, defaultInterval, resolve)
      && r.value.doubleSample == config.doubleSample
      && BuildMetrics(prefix, hostDescription, r.value.interval, config.metrics) == Ok(r.value.metrics)
  {
    match GroupInterval(config.interval, defaultInterval, resolve)
    case Err(e) => Err(e)
    case Ok(interval) =>
      match BuildMetrics(prefix, hostDescription, interval, config.metrics)
      case Err(e) => Err(e)
      case Ok(metrics) =>
        var base := MinAddress(metrics);
        Ok(Group(interval, config.doubleSample, base, EndAddress(metrics) - base, metrics))
  }

  /** The groups of one host, in configuration order; the first group that
      cannot be built rejects them all. */
  function BuildGroups(prefix: string, hostDescription: string, defaultInterval: Option<int>,
                       resolve: Interval -> Result<int>, configs: seq<GroupConfig>): (r: Result<seq<Group>>)
    requires forall i :: 0 <= i < |configs| ==> configs[i].Valid()
    ensures r.Ok? ==> |r.value| == |configs|
    ensures r.Ok? ==> forall i :: 0 <= i < |configs| ==>
      BuildGroup(prefix, hostDescription, defaultInterval, resolve, configs[i]) == Ok(r.value[i])
    ensures r.Err? <==>
      exists i :: 0 <= i < |configs| && BuildGroup(prefix, hostDescription, defaultInterval, resolve, configs[i]).Err?
    ensures r.Ok? ==> AllWellFormed(r.value)
  {
    MapResults(configs, (c: GroupConfig) requires c.Valid() =>
      BuildGroup(prefix, hostDescription, defaultInterval, resolve, c))
  }

  /** One device the bridge polls: its endpoint, the name prefix of its
      metrics, and its groups. */
  datatype Host = Host(
    address: string,
    port: int,
    prefix: string,
    slaveId: int,
    description: string,
    groups: seq<Group>)

  /** Every group of every host built from a valid configuration is well formed. */
  predicate HostsWellFormed(hosts: seq<Host>) {
    forall i :: 0 <= i < |hosts| ==> AllWellFormed(hosts[i].groups)
  }

  lemma HostsWellFormedAppend(a: seq<Host>, b: seq<Host>)
    requires HostsWellFormed(a) && HostsWellFormed(b)
    ensures HostsWellFormed(a + b)
  {
    assert forall i :: |a| <= i < |a| + |b| ==> (a + b)[i] == b[i - |a|];
  }

  /** A host built for the pair (`address`, `name`) of a host entry: the
      entry's port, slave id and description. */
  predicate HostFrom(h: Host, config: HostConfig, address: string, name: string) {
    && h.address == address && h.prefix == name
    && h.port == config.port && h.slaveId == config.slaveId && h.description == config.description
  }

  /** `Host.__init__` for one (host, name) pair of a host entry: its groups
      are built with the name as prefix, and it fails when a group does. */
  function HostOf(config: HostConfig, defaultInterval: Option<int>, resolve: Interval -> Result<int>,
                  address: string, name: string): (r: Result<Host>)
    requires config.Valid()
    ensures var groups := BuildGroups(name, config.description, defaultInterval, resolve, config.groups);
      && (r.Ok? <==> groups.Ok?)
      && (groups.Err? ==> r == Err(groups.error))
      && (r.Ok? ==> HostFrom(r.value, config, address, name) && r.value.groups == groups.value)
    ensures r.Ok? ==> AllWellFormed(r.value.groups)
  {
    var groups := BuildGroups(name, config.description, defaultInterval, resolve, config.groups);
    if groups.Err? then Err(groups.error)
    else Ok(Host(address, config.port, name, config.slaveId, config.description, groups.value))
  }

  /** The hosts of one host entry, one per (host, name) pair, in order; the
      first host that cannot be built rejects them all. */
  function BuildHostPairs(config: HostConfig, defaultInterval: Option<int>, resolve: Interval -> Result<int>,
                          hosts: seq<string>, names: seq<string>): (r: Result<seq<Host>>)
    requires config.Valid() && |hosts| == |names|
    ensures r.Ok? ==> |r.value| == |hosts|
    ensures r.Ok? ==> forall i :: 0 <= i < |hosts| ==>
      HostOf(config, defaultInterval, resolve, hosts[i], names[i]) == Ok(r.value[i])
    ensures r.Err? <==>
      exists i :: 0 <= i < |hosts| && HostOf(config, defaultInterval, resolve, hosts[i], names[i]).Err?
    ensures r.Ok? ==> HostsWellFormed(r.value)
  {
    var pairs := seq(|hosts|, i requires 0 <= i < |hosts| => (hosts[i], names[i]));
    MapResults(pairs, (p: (string, string)) requires config.Valid() =>
      HostOf(config, defaultInterval, resolve, p.0, p.1))
  }

  /** `Host._create_from_host_config`: both host lists are expanded
      (`expand_hostlist`, passed in as `expand`, which may raise), the hosts
      first; lists of different lengths reject the entry; otherwise one host
      per pair. */
  function ExpandHostConfig(config: HostConfig, defaultInterval: Option<int>,
                            expand: string -> Result<seq<string>>, resolve: Interval -> Result<int>): (r: Result<seq<Host>>)
    requires config.Valid()
    ensures expand(config.hosts).Err? ==> r == Err(expand(config.hosts).error)
    ensures expand(config.hosts).Ok? && expand(config.names).Err? ==> r == Err(expand(config.names).error)
    ensures expand(config.hosts).Ok? && expand(config.names).Ok? ==>
      var hosts := expand(config.hosts).value;
      var names := expand(config.names).value;
      && (|hosts| != |names| ==> r == Err(NamesHostsMismatch))
      && (|hosts| == |names| ==> BuildHostPairs(config, defaultInterval, resolve, hosts, names) == r)
    ensures r.Ok? ==> expand(config.hosts).Ok? && |r.value| == |expand(config.hosts).value|
    ensures r.Ok? ==> HostsWellFormed(r.value)
  {
    match expand(config.hosts)
    case Err(e) => Err(e)
    case Ok(hosts) =>
      match expand(config.names)
      case Err(e) => Err(e)
      case Ok(names) =>
        if |hosts| != |names| then Err(NamesHostsMismatch)
        else BuildHostPairs(config, defaultInterval, resolve, hosts, names)
  }

  /** The number of hosts the entries expand to, one per (host, name) pair. */
  function HostCount(configs: seq<HostConfig>, expand: string -> Result<seq<string>>): nat {
    if configs == [] then 0
    else
      var hosts := expand(configs[0].hosts);
      (if hosts.Ok? then |hosts.value| else 0) + HostCount(configs[1..], expand)
  }

  /** `Host.create_from_host_configs`: all host entries in order; the first
      failure wins. */
  function BuildHosts(configs: seq<HostConfig>, defaultInterval: Option<int>,
                      expand: string -> Result<seq<string>>, resolve: Interval -> Result<int>): (r: Result<seq<Host>>)
    requires forall i :: 0 <= i < |configs| ==> configs[i].Valid()
    ensures r.Ok? ==> HostsWellFormed(r.value)
    ensures r.Ok? ==> |r.value| == HostCount(configs, expand)
  {
    if configs == [] then Ok([])
    else
      var first := ExpandHostConfig(configs[0], defaultInterval, expand, resolve);
      if first.Err? then Err(first.error)
      else
        var rest := BuildHosts(configs[1..], defaultInterval, expand, resolve);
        if rest.Err? then rest
        else
          HostsWellFormedAppend(first.value, rest.value);
          Ok(first.value + rest.value)
  }

  /** Building the hosts is concatenating what each entry expands to. */
  lemma {:induction false} BuildHostsIsConcat(configs: seq<HostConfig>, defaultInterval: Option<int>,
                                              expand: string -> Result<seq<string>>, resolve: Interval -> Result<int>,
                                              f: HostConfig -> Result<seq<Host>>)
    requires forall i :: 0 <= i < |configs| ==> configs[i].Valid()
    requires forall i :: 0 <= i < |configs| ==> f(configs[i]) == ExpandHostConfig(configs[i], defaultInterval, expand, resolve)
    ensures BuildHosts(configs, defaultInterval, expand, resolve) == ConcatResults(configs, f)
  {
    if configs != [] {
      BuildHostsIsConcat(configs[1..], defaultInterval, expand, resolve, f);
    }
  }

  /** Building fails exactly when some host entry fails on its own. */
  lemma BuildHostsFails(configs: seq<HostConfig>, defaultInterval: Option<int>,
                        expand: string -> Result<seq<string>>, resolve: Interval -> Result<int>)
    requires forall i :: 0 <= i < |configs| ==> configs[i].Valid()
    ensures BuildHosts(configs, defaultInterval, expand, resolve).Err? <==>
      exists i :: 0 <= i < |configs| && ExpandHostConfig(configs[i], defaultInterval, expand, resolve).Err?
  {
    var f := (c: HostConfig) => if c.Valid() then ExpandHostConfig(c, defaultInterval, expand, resolve) else Ok([]);
    BuildHostsIsConcat(configs, defaultInterval, expand, resolve, f);
  }

  /** The hosts of entry `k` sit, in order, between the hosts of the entries
      before it and those of the entries after it. */
  lemma BuildHostsSplit(configs: seq<HostConfig>, defaultInterval: Option<int>,
                        expand: string -> Result<seq<string>>, resolve: Interval -> Result<int>, k: int)
    requires forall i :: 0 <= i < |configs| ==> configs[i].Valid()
    requires 0 <= k < |configs|
    ensures BuildHosts(configs, defaultInterval, expand, resolve).Ok? ==>
      var before := BuildHosts(configs[..k], defaultInterval, expand, resolve);
      var here := ExpandHostConfig(configs[k], defaultInterval, expand, resolve);
      var after := BuildHosts(configs[k + 1..], defaultInterval, expand, resolve);
      && before.Ok? && here.Ok? && after.Ok?
      && BuildHosts(configs, defaultInterval, expand, resolve).value == before.value + here.value + after.value
  {
    var f := (c: HostConfig) => if c.Valid() then ExpandHostConfig(c, defaultInterval, expand, resolve) else Ok([]);
    BuildHostsIsConcat(configs, defaultInterval, expand, resolve, f);
    BuildHostsIsConcat(configs[..k], defaultInterval, expand, resolve, f);
    BuildHostsIsConcat(configs[k + 1..], defaultInterval, expand, resolve, f);
    ConcatResultsSplit(configs, f, k);
  }

  /** Entry `k` is the first host entry that fails on its own. */
  predicate FirstFailure(configs: seq<HostConfig>, defaultInterval: Option<int>,
                         expand: string -> Result<seq<string>>, resolve: Interval -> Result<int>, k: int)
    requires forall i :: 0 <= i < |configs| ==> configs[i].Valid()
  {
    && 0 <= k < |configs|
    && ExpandHostConfig(configs[k], defaultInterval, expand, resolve).Err?
    && forall j :: 0 <= j < k ==> ExpandHostConfig(configs[j], defaultInterval, expand, resolve).Ok?
  }

  /** The error is that of the first entry that fails: entries are built in
      order and the first exception ends the build. */
  lemma BuildHostsFirstError(configs: seq<HostConfig>, defaultInterval: Option<int>,
                                                expand: string -> Result<seq<string>>, resolve: Interval -> Result<int>, k: int)
    requires forall i :: 0 <= i < |configs| ==> configs[i].Valid()
    requires FirstFailure(configs, defaultInterval, expand, resolve, k)
    ensures BuildHosts(configs, defaultInterval, expand, resolve)
      == Err(ExpandHostConfig(configs[k], defaultInterval, expand, resolve).error)
  {
    var f := (c: HostConfig) => if c.Valid() then ExpandHostConfig(c, defaultInterval, expand, resolve) else Ok([]);
    BuildHostsIsConcat(configs, defaultInterval, expand, resolve, f);
    ConcatResultsFirstError(configs, f, k);
  }
}
