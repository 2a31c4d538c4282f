/** `ModbusSource`: the bridge's reaction to configuration messages. A
    configuration replaces the running generation of host tasks: the old one
    is stopped, the hosts are rebuilt, their metrics are declared to the
    metricq manager, and a new generation of tasks is started. A generation
    is identified by a number; its stop future and its task carry that
    number, and `log` records the effects visible outside, in order. */
module Controller {
  import opened Common
  import opened ConfigModel
  import opened Construction
  import opened Declaration

  /** What the bridge does outside itself: a generation told to stop, a
      declaration of metrics, a generation of host tasks started. */
  datatype Event =
    | Stopped(generation: nat)
    | Declared(metadata: map<string, Metadata>)
    | Started(generation: nat, hosts: seq<Host>)

  /** The controller's fields: `default_interval`, `hosts`,
      `_host_task_stop_future` and `_host_task`, plus the next generation
      number and the log of effects. */
  datatype State = State(
    defaultInterval: Option<int>,
    hosts: Option<seq<Host>>,
    stopFuture: Option<nat>,
    hostTask: Option<nat>,
    nextGeneration: nat,
    log: seq<Event>)

  /** The stop future and the task exist together and belong to the same,
      already numbered generation, which has its hosts. */
  predicate Consistent(c: State) {
    && (c.stopFuture.Some? <==> c.hostTask.Some?)
    && (c.hostTask.Some? ==>
          c.hosts.Some? && c.stopFuture == c.hostTask && c.hostTask.value < c.nextGeneration)
  }

  /** A generation of host tasks is running. */
  predicate Running(c: State) {
    c.hostTask.Some?
  }

  /** The state after `_stop_host_tasks`. */
  function StopTasks(c: State): State
    requires c.stopFuture.Some? && c.hostTask.Some?
  {
    c.(hosts := None, stopFuture := None, hostTask := None, log := c.log + [Stopped(c.hostTask.value)])
  }

  /** The state after `_create_host_tasks`. */
  function CreateTasks(c: State): State
    requires c.hosts.Some? && c.stopFuture.None? && c.hostTask.None?
  {
    c.(stopFuture := Some(c.nextGeneration), hostTask := Some(c.nextGeneration),
       nextGeneration := c.nextGeneration + 1,
       log := c.log + [Started(c.nextGeneration, c.hosts.value)])
  }

  /** A new state and the exception that ended the handler, if any. */
  datatype Transition = Transition(state: State, error: Option<Error>)

  /** `_on_config`: validate the document and parse the source's default
      interval (nothing changes when either fails), then `Apply` the
      configuration with the hosts built from it. Hostlist expansion and
      interval parsing are `expand` and `resolve`;
      the outcome of the declaration, a call to the metricq manager, is the
      parameter `declareFails`. */
  function OnConfigSpec(c: State, doc: Json, expand: string -> Result<seq<string>>, resolve: Interval -> Result<int>,
                        declareFails: bool): Transition
    requires Consistent(c)
  {
    var parsed := ParseSource(doc);
    if parsed.None? then Transition(c, Some(ValidationError))
    else
      match ExtractInterval(parsed.value.interval, resolve)
      case Err(e) => Transition(c, Some(e))
      case Ok(defaultInterval) =>
        Apply(c, defaultInterval, BuildHosts(parsed.value.hosts, defaultInterval, expand, resolve), declareFails)
  }

  /** The rest of `_on_config` for a valid document: set the default
      interval, stop the running generation if there are hosts (its
      assertions fail when there are hosts but no tasks), take the `built`
      hosts or their error, compute their metadata (which fails on a zero
      group interval), declare it and start the new generation. */
  function Apply(c: State, defaultInterval: Option<int>, built: Result<seq<Host>>, declareFails: bool): Transition
    requires Consistent(c)
  {
    var c1 := c.(defaultInterval := defaultInterval);
    if c1.hosts.Some? && (c1.stopFuture.None? || c1.hostTask.None?) then Transition(c1, Some(AssertionFailed))
    else
      var c2 := if c1.hosts.Some? then StopTasks(c1) else c1;
      if built.Err? then Transition(c2, Some(built.error))
      else if !RatesDefined(built.value) then Transition(c2.(hosts := Some(built.value)), Some(DivisionByZero))
      else if declareFails then Transition(c2.(hosts := Some(built.value)), Some(DeclarationFailed))
      else
        var c3 := c2.(hosts := Some(built.value), log := c2.log + [Declared(DeclaredMetadata(built.value))]);
        Transition(CreateTasks(c3), None)
  }

  /** `task`: once the source is told to stop, stop the host tasks; the
      assertions fail when no generation is running. */
  function ShutdownSpec(c: State): Transition {
    if c.stopFuture.Some? && c.hostTask.Some? then Transition(StopTasks(c), None)
    else Transition(c, Some(AssertionFailed))
  }

  /** The effects of stopping whatever generation was running. */
  function StopEvents(c: State): seq<Event> {
    if c.hostTask.Some? then [Stopped(c.hostTask.value)] else []
  }

  /** Every handler keeps the controller consistent. */
  lemma OnConfigConsistent(c: State, doc: Json, expand: string -> Result<seq<string>>, resolve: Interval -> Result<int>,
                           declareFails: bool)
    requires Consistent(c)
    ensures Consistent(OnConfigSpec(c, doc, expand, resolve, declareFails).state)
    ensures Consistent(ShutdownSpec(c).state)
  {
    var parsed := ParseSource(doc);
    if parsed.Some? && ExtractInterval(parsed.value.interval, resolve).Ok? {
      var defaultInterval := ExtractInterval(parsed.value.interval, resolve).value;
      ApplyConsistent(c, defaultInterval, BuildHosts(parsed.value.hosts, defaultInterval, expand, resolve), declareFails);
    }
  }

  lemma ApplyConsistent(c: State, defaultInterval: Option<int>, built: Result<seq<Host>>, declareFails: bool)
    requires Consistent(c)
    ensures Consistent(Apply(c, defaultInterval, built, declareFails).state)
  {
  }

  /** An invalid document is rejected before anything changes. */
  lemma InvalidDocumentChangesNothing(c: State, doc: Json, expand: string -> Result<seq<string>>,
                                      resolve: Interval -> Result<int>, declareFails: bool)
    requires Consistent(c) && ParseSource(doc).None?
    ensures OnConfigSpec(c, doc, expand, resolve, declareFails) == Transition(c, Some(ValidationError))
  {
  }

  /** A source interval that cannot be parsed is rejected before the running
      generation is stopped: nothing changes and the old tasks keep running. */
  lemma UnparseableIntervalChangesNothing(c: State, doc: Json, expand: string -> Result<seq<string>>,
                                          resolve: Interval -> Result<int>, declareFails: bool)
    requires Consistent(c) && ParseSource(doc).Some?
    requires ExtractInterval(ParseSource(doc).value.interval, resolve).Err?
    ensures OnConfigSpec(c, doc, expand, resolve, declareFails)
      == Transition(c, Some(ExtractInterval(ParseSource(doc).value.interval, resolve).error))
    ensures Running(OnConfigSpec(c, doc, expand, resolve, declareFails).state) == Running(c)
  {
  }

  /** Applying a configuration succeeds exactly when the previous hosts (if
      any) have running tasks, every host was built, their metadata can be
      computed and the declaration goes through. It then stops the old generation, declares the metrics
      of the new hosts, and only then starts a generation with a fresh
      number running those hosts. */
  lemma ApplySucceeds(c: State, defaultInterval: Option<int>, built: Result<seq<Host>>, declareFails: bool)
    requires Consistent(c)
    ensures var t := Apply(c, defaultInterval, built, declareFails);
      t.error.None? <==> (c.hosts.Some? ==> Running(c)) && built.Ok? && RatesDefined(built.value) && !declareFails
    ensures var t := Apply(c, defaultInterval, built, declareFails);
      t.error.None? ==>
        && t.state.defaultInterval == defaultInterval
        && t.state.hosts == Some(built.value)
        && t.state.stopFuture == t.state.hostTask == Some(c.nextGeneration)
        && t.state.nextGeneration == c.nextGeneration + 1
        && t.state.log == c.log + StopEvents(c)
                          + [Declared(DeclaredMetadata(built.value)), Started(c.nextGeneration, built.value)]
  {
  }

  /** Hosts that cannot be built (a missing interval, host and name lists
      of different lengths, a group interval or hostlist that cannot be
      parsed, ...) leave no generation running: the old one
      was stopped before the build. */
  lemma ConfigErrorLeavesNoGeneration(c: State, defaultInterval: Option<int>, built: Result<seq<Host>>,
                                      declareFails: bool)
    requires Consistent(c) && (c.hosts.Some? ==> Running(c)) && built.Err?
    ensures var t := Apply(c, defaultInterval, built, declareFails);
      && t.error == Some(built.error)
      && t.state.hosts.None? && !Running(t.state) && t.state.stopFuture.None?
      && t.state.log == c.log + StopEvents(c)
  {
  }

  /** When declaring the metrics fails, or their metadata cannot be
      computed because a group interval is zero, the new hosts are kept but
      no tasks are started. From then on every valid configuration whose
      interval parses fails the assertion of `_stop_host_tasks` and changes
      nothing but the default interval, and so does the shutdown. */
  lemma FailedDeclarationBlocksReconfiguration(c: State, defaultInterval: Option<int>, hosts: seq<Host>,
                                               doc: Json, expand: string -> Result<seq<string>>, resolve: Interval -> Result<int>,
                                               declareFails: bool)
    requires Consistent(c) && (c.hosts.Some? ==> Running(c))
    requires ParseSource(doc).Some?
    ensures var t := Apply(c, defaultInterval, Ok(hosts), true);
      && t.error == Some(if RatesDefined(hosts) then DeclarationFailed else DivisionByZero)
      && t.state.hosts == Some(hosts) && !Running(t.state)
      && ShutdownSpec(t.state) == Transition(t.state, Some(AssertionFailed))
    ensures var t := Apply(c, defaultInterval, Ok(hosts), true);
      var interval := ExtractInterval(ParseSource(doc).value.interval, resolve);
      && (interval.Ok? ==>
            OnConfigSpec(t.state, doc, expand, resolve, declareFails)
              == Transition(t.state.(defaultInterval := interval.value), Some(AssertionFailed)))
      && (interval.Err? ==>
            OnConfigSpec(t.state, doc, expand, resolve, declareFails) == Transition(t.state, Some(interval.error)))
  {
    var s := Apply(c, defaultInterval, Ok(hosts), true).state;
    ApplyConsistent(c, defaultInterval, Ok(hosts), true);
    var config := ParseSource(doc).value;
    var interval := ExtractInterval(config.interval, resolve);
    if interval.Ok? {
      var d := interval.value;
      OnConfigApplies(s, doc, expand, resolve, declareFails);
      HostsWithoutTasksFail(s, d, BuildHosts(config.hosts, d, expand, resolve), declareFails);
    }
  }

  /** A valid document whose default interval parses is applied with the
      hosts built from it. */
  lemma OnConfigApplies(c: State, doc: Json, expand: string -> Result<seq<string>>, resolve: Interval -> Result<int>,
                        declareFails: bool)
    requires Consistent(c) && ParseSource(doc).Some?
    requires ExtractInterval(ParseSource(doc).value.interval, resolve).Ok?
    ensures var config := ParseSource(doc).value;
      var d := ExtractInterval(config.interval, resolve).value;
      OnConfigSpec(c, doc, expand, resolve, declareFails) == Apply(c, d, BuildHosts(config.hosts, d, expand, resolve), declareFails)
  {
  }

  /** Hosts without running tasks fail the assertion of `_stop_host_tasks`
      and only the default interval changes. */
  lemma HostsWithoutTasksFail(c: State, defaultInterval: Option<int>, built: Result<seq<Host>>, declareFails: bool)
    requires Consistent(c) && c.hosts.Some? && !Running(c)
    ensures Apply(c, defaultInterval, built, declareFails)
      == Transition(c.(defaultInterval := defaultInterval), Some(AssertionFailed))
  {
  }

  /** Shutting down stops the running generation, and fails its assertions
      when none is running. */
  lemma ShutdownStops(c: State)
    requires Consistent(c)
    ensures Running(c) ==>
      ShutdownSpec(c).error.None? && !Running(ShutdownSpec(c).state) && ShutdownSpec(c).state.hosts.None?
      && ShutdownSpec(c).state.log == c.log + [Stopped(c.hostTask.value)]
    ensures !Running(c) ==> ShutdownSpec(c) == Transition(c, Some(AssertionFailed))
  {
  }

  class ModbusSource {
    var defaultInterval: Option<int>
    var hosts: Option<seq<Host>>
    var stopFuture: Option<nat>
    var hostTask: Option<nat>
    var nextGeneration: nat
    var log: seq<Event>

    /** The fields as a value. */
    function Snapshot(): State
      reads this
    {
      State(defaultInterval, hosts, stopFuture, hostTask, nextGeneration, log)
    }

    predicate Valid()
      reads this
    {
      Consistent(Snapshot())
    }

    /** A new source: no configuration, no hosts, nothing running. */
    constructor()
      ensures Valid() && Snapshot() == State(None, None, None, None, 0, [])
    {
      defaultInterval, hosts, stopFuture, hostTask, nextGeneration, log := None, None, None, None, 0, [];
    }

    /** `_stop_host_tasks`: requires a running generation (the two
        assertions), tells it to stop and forgets it together with the hosts. */
    method StopHostTasks()
      requires Valid() && stopFuture.Some? && hostTask.Some?
      modifies this
      ensures Valid() && Snapshot() == StopTasks(old(Snapshot()))
      ensures hosts.None? && stopFuture.None? && hostTask.None?
      ensures log == old(log) + [Stopped(old(hostTask.value))]
      ensures defaultInterval == old(defaultInterval) && nextGeneration == old(nextGeneration)
    {
      log := log + [Stopped(hostTask.value)];
      hosts, stopFuture, hostTask := None, None, None;
    }

    /** `_create_host_tasks`: requires hosts and no running generation (the
        three assertions) and starts a generation with a fresh number. */
    method CreateHostTasks()
      requires Valid() && hosts.Some? && stopFuture.None? && hostTask.None?
      modifies this
      ensures Valid() && Snapshot() == CreateTasks(old(Snapshot()))
      ensures stopFuture == hostTask == Some(old(nextGeneration)) && nextGeneration == old(nextGeneration) + 1
      ensures log == old(log) + [Started(old(nextGeneration), old(hosts.value))]
      ensures hosts == old(hosts) && defaultInterval == old(defaultInterval)
    {
      stopFuture, hostTask := Some(nextGeneration), Some(nextGeneration);
      log := log + [Started(nextGeneration, hosts.value)];
      nextGeneration := nextGeneration + 1;
    }

    /** `_on_config`. */
    method OnConfig(doc: Json, expand: string -> Result<seq<string>>, resolve: Interval -> Result<int>, declareFails: bool)
      returns (error: Option<Error>)
      requires Valid()
      modifies this
      ensures Valid()
      ensures Transition(Snapshot(), error) == OnConfigSpec(old(Snapshot()), doc, expand, resolve, declareFails)
    {
      var parsed := ParseSource(doc);
      if parsed.None? {
        return Some(ValidationError);
      }
      var config := parsed.value;
      var interval := ExtractInterval(config.interval, resolve);
      if interval.Err? {
        UnparseableIntervalChangesNothing(Snapshot(), doc, expand, resolve, declareFails);
        return Some(interval.error);
      }
      OnConfigApplies(Snapshot(), doc, expand, resolve, declareFails);
      error := Reconfigure(config.hosts, interval.value, expand, resolve, declareFails);
    }

    /** The rest of `_on_config` once the default interval is known: set it,
        stop the running generation, build the hosts, declare their metrics
        and start the new generation. */
    method Reconfigure(configs: seq<HostConfig>, interval: Option<int>, expand: string -> Result<seq<string>>,
                       resolve: Interval -> Result<int>, declareFails: bool)
      returns (error: Option<Error>)
      requires Valid() && forall i :: 0 <= i < |configs| ==> configs[i].Valid()
      modifies this
      ensures Valid()
      ensures Transition(Snapshot(), error)
        == Apply(old(Snapshot()), interval, BuildHosts(configs, interval, expand, resolve), declareFails)
    {
      defaultInterval := interval;
      if hosts.Some? {
        if stopFuture.None? || hostTask.None? {
          return Some(AssertionFailed);
        }
        StopHostTasks();
      }
      var built := BuildHosts(configs, defaultInterval, expand, resolve);
      if built.Err? {
        return Some(built.error);
      }
      hosts := Some(built.value);
      if !RatesDefined(built.value) {
        return Some(DivisionByZero);
      }
      if declareFails {
        return Some(DeclarationFailed);
      }
      log := log + [Declared(DeclaredMetadata(built.value))];
      CreateHostTasks();
      return None;
    }

    /** `task`: stop the host tasks once the source itself is stopped. */
    method Shutdown() returns (error: Option<Error>)
      requires Valid()
      modifies this
      ensures Valid()
      ensures Transition(Snapshot(), error) == ShutdownSpec(old(Snapshot()))
    {
      if stopFuture.None? || hostTask.None? {
        return Some(AssertionFailed);
      }
      StopHostTasks();
      return None;
    }
  }
}
