/** The metadata the bridge declares for its metrics: one entry per metric of
    every group of every host, gathered by nested dictionary comprehensions,
    so that a name declared twice keeps the metadata of its last occurrence. */
module Declaration {
  import opened Common
  import opened Construction

  /** `Metric.metadata` without its floating-point `rate`; the interval is
      kept as nanoseconds rather than rendered as metricq's precise string. */
  datatype Metadata = Metadata(description: string, interval: int, unit: Option<string>)

  /** `Metric.metadata`: the description, the group's interval, and the unit
      only when it is set and not empty. */
  function MetricMetadata(m: Metric, interval: int): (md: Metadata)
    ensures md.description == m.description && md.interval == interval
    ensures md.unit.Some? <==> m.unit.Some? && m.unit.value != ""
    ensures md.unit.Some? ==> md.unit == m.unit
  {
    Metadata(m.description, interval, if m.unit.Some? && m.unit.value != "" then m.unit else None)
  }

  /** The (name, metadata) pairs of one group, in metric order. */
  function GroupEntries(g: Group): (es: seq<(string, Metadata)>)
    ensures |es| == |g.metrics|
    ensures forall i :: 0 <= i < |g.metrics| ==>
      es[i] == (g.metrics[i].name, MetricMetadata(g.metrics[i], g.interval))
  {
    seq(|g.metrics|, i requires 0 <= i < |g.metrics| =>
      (g.metrics[i].name, MetricMetadata(g.metrics[i], g.interval)))
  }

  /** The pairs of a host's groups, group after group. */
  function HostEntries(groups: seq<Group>): seq<(string, Metadata)> {
    if groups == [] then [] else GroupEntries(groups[0]) + HostEntries(groups[1..])
  }

  /** The pairs of all hosts, host after host. */
  function AllEntries(hosts: seq<Host>): seq<(string, Metadata)> {
    if hosts == [] then [] else HostEntries(hosts[0].groups) + AllEntries(hosts[1..])
  }

  /** A dictionary built from pairs in order: a later pair overwrites an
      earlier one with the same key. */
  function ToMap(entries: seq<(string, Metadata)>): map<string, Metadata> {
    if entries == [] then map[]
    else ToMap(entries[..|entries| - 1])[entries[|entries| - 1].0 := entries[|entries| - 1].1]
  }

  /** The dictionary passed to `declare_metrics`. */
  function DeclaredMetadata(hosts: seq<Host>): map<string, Metadata> {
    ToMap(AllEntries(hosts))
  }

  /** Whether the metadata of `hosts` can be computed at all. `Metric.metadata`
      divides one by its group's interval in seconds, which raises
      `ZeroDivisionError` for any metric of a group whose interval is zero. */
  predicate RatesDefined(hosts: seq<Host>) {
    forall h, g :: 0 <= h < |hosts| && 0 <= g < |hosts[h].groups| && hosts[h].groups[g].metrics != [] ==>
      hosts[h].groups[g].interval != 0
  }

  /** The pairs of a host carry non-zero intervals when its groups with
      metrics do. */
  lemma {:induction false} HostEntriesNonZero(groups: seq<Group>)
    requires forall g :: 0 <= g < |groups| && groups[g].metrics != [] ==> groups[g].interval != 0
    ensures forall i :: 0 <= i < |HostEntries(groups)| ==> HostEntries(groups)[i].1.interval != 0
  {
    if groups != [] {
      HostEntriesNonZero(groups[1..]);
      var first := GroupEntries(groups[0]);
      var rest := HostEntries(groups[1..]);
      forall i | 0 <= i < |HostEntries(groups)|
        ensures HostEntries(groups)[i].1.interval != 0
      {
        if i < |first| {
          assert HostEntries(groups)[i] == first[i];
        } else {
          assert HostEntries(groups)[i] == rest[i - |first|];
        }
      }
    }
  }

  /** The pairs of all hosts carry non-zero intervals when the rates are
      defined. */
  lemma {:induction false} AllEntriesNonZero(hosts: seq<Host>)
    requires RatesDefined(hosts)
    ensures forall i :: 0 <= i < |AllEntries(hosts)| ==> AllEntries(hosts)[i].1.interval != 0
  {
    if hosts != [] {
      assert RatesDefined(hosts[1..]) by {
        forall h, g | 0 <= h < |hosts[1..]| && 0 <= g < |hosts[1..][h].groups| && hosts[1..][h].groups[g].metrics != []
          ensures hosts[1..][h].groups[g].interval != 0
        {
          assert hosts[1..][h] == hosts[h + 1];
        }
      }
      AllEntriesNonZero(hosts[1..]);
      var groups := hosts[0].groups;
      assert forall g :: 0 <= g < |groups| && groups[g].metrics != [] ==> groups[g].interval != 0 by {
        forall g | 0 <= g < |groups| && groups[g].metrics != []
          ensures groups[g].interval != 0
        {
          assert hosts[0].groups[g] == groups[g];
        }
      }
      HostEntriesNonZero(groups);
      var first := HostEntries(groups);
      var rest := AllEntries(hosts[1..]);
      assert AllEntries(hosts) == first + rest;
    }
  }

  /** The rates of `hosts` are defined exactly when every pair to be
      declared carries a non-zero interval. */
  lemma RatesDefinedEntries(hosts: seq<Host>)
    ensures RatesDefined(hosts) <==>
      forall i :: 0 <= i < |AllEntries(hosts)| ==> AllEntries(hosts)[i].1.interval != 0
  {
    if RatesDefined(hosts) {
      AllEntriesNonZero(hosts);
    } else {
      var h, g :| 0 <= h < |hosts| && 0 <= g < |hosts[h].groups| && hosts[h].groups[g].metrics != []
        && hosts[h].groups[g].interval == 0;
      AllEntriesContain(hosts, h, g, 0);
    }
  }

  /** The declared names are exactly the names among the pairs. */
  lemma {:induction false} ToMapKeys(entries: seq<(string, Metadata)>, key: string)
    ensures key in ToMap(entries) <==> exists i :: 0 <= i < |entries| && entries[i].0 == key
  {
    if entries != [] {
      var init := entries[..|entries| - 1];
      ToMapKeys(init, key);
      assert forall i :: 0 <= i < |init| ==> init[i] == entries[i];
      if key in ToMap(entries) && key != entries[|entries| - 1].0 {
        var i :| 0 <= i < |init| && init[i].0 == key;
        assert entries[i].0 == key;
      }
    }
  }

  /** A name declared several times keeps the metadata of its last pair. */
  lemma {:induction false} ToMapLastWins(entries: seq<(string, Metadata)>, i: int)
    requires 0 <= i < |entries|
    requires forall j :: i < j < |entries| ==> entries[j].0 != entries[i].0
    ensures entries[i].0 in ToMap(entries) && ToMap(entries)[entries[i].0] == entries[i].1
  {
    var n := |entries| - 1;
    if i < n {
      var init := entries[..n];
      assert init[i] == entries[i];
      assert forall j :: i < j < |init| ==> init[j] == entries[j];
      ToMapLastWins(init, i);
    }
  }

  /** Every metric of a group has a pair in its host's list. */
  lemma {:induction false} HostEntriesContain(groups: seq<Group>, g: int, m: int)
    requires 0 <= g < |groups| && 0 <= m < |groups[g].metrics|
    ensures var metric := groups[g].metrics[m];
      exists i :: 0 <= i < |HostEntries(groups)| &&
        HostEntries(groups)[i] == (metric.name, MetricMetadata(metric, groups[g].interval))
  {
    var first := GroupEntries(groups[0]);
    if g == 0 {
      assert HostEntries(groups)[m] == first[m];
    } else {
      HostEntriesContain(groups[1..], g - 1, m);
      var rest := HostEntries(groups[1..]);
      var i :| 0 <= i < |rest| &&
        rest[i] == (groups[g].metrics[m].name, MetricMetadata(groups[g].metrics[m], groups[g].interval));
      assert HostEntries(groups)[|first| + i] == rest[i];
    }
  }

  /** Every metric of every group of every host has a pair in the list. */
  lemma {:induction false} AllEntriesContain(hosts: seq<Host>, h: int, g: int, m: int)
    requires 0 <= h < |hosts| && 0 <= g < |hosts[h].groups| && 0 <= m < |hosts[h].groups[g].metrics|
    ensures var metric := hosts[h].groups[g].metrics[m];
      exists i :: 0 <= i < |AllEntries(hosts)| &&
        AllEntries(hosts)[i] == (metric.name, MetricMetadata(metric, hosts[h].groups[g].interval))
  {
    var metric := hosts[h].groups[g].metrics[m];
    var pair := (metric.name, MetricMetadata(metric, hosts[h].groups[g].interval));
    var first := HostEntries(hosts[0].groups);
    if h == 0 {
      HostEntriesContain(hosts[0].groups, g, m);
      var i :| 0 <= i < |first| && first[i] == pair;
      assert AllEntries(hosts)[i] == pair;
    } else {
      AllEntriesContain(hosts[1..], h - 1, g, m);
      var rest := AllEntries(hosts[1..]);
      var i :| 0 <= i < |rest| && rest[i] == pair;
      assert AllEntries(hosts)[|first| + i] == pair;
    }
  }

  /** Every metric of every host is declared. */
  lemma EveryMetricDeclared(hosts: seq<Host>, h: int, g: int, m: int)
    requires 0 <= h < |hosts| && 0 <= g < |hosts[h].groups| && 0 <= m < |hosts[h].groups[g].metrics|
    ensures hosts[h].groups[g].metrics[m].name in DeclaredMetadata(hosts)
  {
    AllEntriesContain(hosts, h, g, m);
    ToMapKeys(AllEntries(hosts), hosts[h].groups[g].metrics[m].name);
  }
}
