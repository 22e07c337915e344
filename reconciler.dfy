// One polling cycle of the daemon: filter the batch on the checkpoint, classify each event,
// keep the registry of hosts under remediation, and advance the checkpoint.

module Reconciler {
  import opened Events
  import opened Registry
  import opened Checkpoint
  import opened Remote

  /** `AsWritten` passes the literal list `['connector_guid']` to stop_isolation, as the
      source does; `Corrected` passes the event's GUID. Nothing else differs. */
  datatype Build = AsWritten | Corrected

  /** The persistent registry lines and the log of issued calls. */
  datatype World = World(registry: seq<string>, log: seq<Action>)

  /** The host argument of the stop-isolation call for `e`. */
  function StopIsolationArg(build: Build, e: Event): (arg: HostArg)
  {
    match build
    case AsWritten => ListLiteral(["connector_guid"])
    case Corrected => Guid(e.guid)
  }

  /** The effect of one event of a batch, given the checkpoint `last` read at cycle start. */
  function Step(build: Build, triggers: seq<string>, last: int, w: World, e: Event): (w': World)
  {
    if e.timestamp <= last then w
    else if e.eventType in triggers then
      if Line(e.guid) in w.registry then w
      else World(Appended(w.registry, e.guid),
                 w.log + [FullScan(e.guid), Isolate(e.guid), Email(StartingScanPrefix + e.eventType, e.hostname)])
    else if e.eventType == NoDetections then
      World(Without(w.registry, Line(e.guid)), w.log + [Unisolate(StopIsolationArg(build, e))])
    else if e.eventType == WithDetections then
      World(Without(w.registry, Line(e.guid)), w.log + [Email(WithDetections, e.hostname)])
    else w
  }

  /** The effect of a whole batch, events handled in order. */
  function Cycle(build: Build, triggers: seq<string>, last: int, w: World, events: seq<Event>): (w': World)
    decreases |events|
  {
    if events == [] then w
    else Step(build, triggers, last, Cycle(build, triggers, last, w, events[..|events| - 1]), events[|events| - 1])
  }

  /** One iteration of `main`'s loop over the batch: `event` against the checkpoint
      `lastRunTime` read at cycle start. */
  method HandleEvent(build: Build, triggers: seq<string>, lastRunTime: int, event: Event,
                     registry: LineFile, outbox: Outbox)
    modifies registry, outbox
    ensures World(registry.lines, outbox.log)
         == Step(build, triggers, lastRunTime, World(old(registry.lines), old(outbox.log)), event)
  {
    if event.timestamp > lastRunTime {
      if event.eventType in triggers {
        var endpointsCurrentlyScanning := registry.ReadLines();
        if Line(event.guid) !in endpointsCurrentlyScanning {
          outbox.StartFullScan(event.guid);
          outbox.StartIsolation(event.guid);
          outbox.EmailAlert(StartingScanPrefix + event.eventType, event.hostname);
          registry.AppendToEnd(event.guid);
        }
      } else if event.eventType == NoDetections {
        outbox.StopIsolation(StopIsolationArg(build, event));
        registry.RemoveFrom(event.guid);
      } else if event.eventType == WithDetections {
        outbox.EmailAlert(WithDetections, event.hostname);
        registry.RemoveFrom(event.guid);
      }
    }
  }

  /** The body of `main`'s polling loop, for a batch `events` fetched once and a clock
      reading `now` taken once at cycle start. */
  method RunCycle(build: Build, triggers: seq<string>, now: int, events: seq<Event>,
                  checkpoint: CheckpointFile, registry: LineFile, outbox: Outbox)
    modifies checkpoint, registry, outbox
    ensures checkpoint.content == Some(now)
    ensures World(registry.lines, outbox.log)
         == Cycle(build, triggers, LastRunTime(old(checkpoint.content)), World(old(registry.lines), old(outbox.log)), events)
  {
    var lastRunTime := checkpoint.GetLastRunTime();
    var currentRunTime := now;
    ghost var start := World(registry.lines, outbox.log);
    var i := 0;
    while i < |events|
      invariant 0 <= i <= |events|
      invariant World(registry.lines, outbox.log) == Cycle(build, triggers, lastRunTime, start, events[..i])
    {
      assert events[..i + 1][..i] == events[..i];
      HandleEvent(build, triggers, lastRunTime, events[i], registry, outbox);
      i := i + 1;
    }
    assert events[..i] == events;
    checkpoint.UpdateLastRunTime(currentRunTime);
  }
}
