// What one cycle guarantees about checkpoint filtering, duplicate suppression and the
// registry, stated over the cycle's specification in module Reconciler.

module Properties {
  import opened Events
  import opened Registry
  import opened Remote
  import opened Reconciler

  /** Number of full scans started for host `g` in `log`. */
  function Starts(log: seq<Action>, g: string): (n: nat)
  {
    multiset(log)[FullScan(g)]
  }

  /** Number of isolations started for host `g` in `log`. */
  function Isolations(log: seq<Action>, g: string): (n: nat)
  {
    multiset(log)[Isolate(g)]
  }

  /** `e` is handled by one of the two terminal branches for host `g`. */
  predicate Closes(triggers: seq<string>, last: int, e: Event, g: string)
  {
    e.timestamp > last && e.guid == g && e.eventType !in triggers
    && (e.eventType == NoDetections || e.eventType == WithDetections)
  }

  /** `e` is a trigger-type event for host `g` newer than the checkpoint. */
  predicate FreshTrigger(triggers: seq<string>, last: int, e: Event, g: string)
  {
    e.timestamp > last && e.guid == g && e.eventType in triggers
  }

  /** The events of a batch newer than the checkpoint, in batch order. */
  function Fresh(last: int, events: seq<Event>): (r: seq<Event>)
  {
    if events == [] then []
    else
      var rest := Fresh(last, events[..|events| - 1]);
      if events[|events| - 1].timestamp > last then rest + [events[|events| - 1]] else rest
  }

  // ---- one event ----

  /** An event not newer than the checkpoint is not classified and changes nothing. */
  lemma StaleEventIgnored(build: Build, triggers: seq<string>, last: int, w: World, e: Event)
    requires e.timestamp <= last
    ensures Step(build, triggers, last, w, e) == w
  {
  }

  /** A fresh trigger-type event for a host not in the registry logs scan, isolation and the
      "Starting Full Scan - " alert in that order, and writes the host's line at the end of the
      file; when every line of the file ends in a newline, that is a new last line. */
  lemma TriggerStartsRemediation(build: Build, triggers: seq<string>, last: int, w: World, e: Event)
    requires e.timestamp > last && e.eventType in triggers && Line(e.guid) !in w.registry
    ensures var w' := Step(build, triggers, last, w, e);
      w'.log == w.log + [FullScan(e.guid), Isolate(e.guid), Email(StartingScanPrefix + e.eventType, e.hostname)]
      && w'.registry == Appended(w.registry, e.guid)
      && (AllTerminated(w.registry) ==>
            w'.registry == w.registry + [Line(e.guid)] && Line(e.guid) in w'.registry && AllTerminated(w'.registry))
  {
    AppendedShape(w.registry, e.guid);
  }

  /** A fresh trigger-type event for a host already in the registry does nothing at all. */
  lemma DuplicateTriggerSuppressed(build: Build, triggers: seq<string>, last: int, w: World, e: Event)
    requires e.eventType in triggers && Line(e.guid) in w.registry
    ensures Step(build, triggers, last, w, e) == w
  {
  }

  /** After either terminal event the host's line is gone, every other line is kept in order;
      only the with-detections branch sends an alert and only the no-detections branch
      stops isolation. */
  lemma TerminalEventClearsHost(build: Build, triggers: seq<string>, last: int, w: World, e: Event)
    requires e.timestamp > last && e.eventType !in triggers
    requires e.eventType == NoDetections || e.eventType == WithDetections
    ensures var w' := Step(build, triggers, last, w, e);
      Line(e.guid) !in w'.registry
      && (forall y :: y in w'.registry <==> y != Line(e.guid) && y in w.registry)
      && w'.registry == Without(w.registry, Line(e.guid))
      && |w'.log| == |w.log| + 1 && w'.log[..|w.log|] == w.log
      && (w'.log[|w.log|].Email? <==> e.eventType == WithDetections)
      && (w'.log[|w.log|].Unisolate? <==> e.eventType == NoDetections)
      && (e.eventType == WithDetections ==> w'.log[|w.log|] == Email(WithDetections, e.hostname))
      && (e.eventType == NoDetections ==> w'.log[|w.log|] == Unisolate(StopIsolationArg(build, e)))
  {
    var w' := Step(build, triggers, last, w, e);
    WithoutNotMember(w.registry, Line(e.guid));
    forall y
      ensures y in w'.registry <==> y != Line(e.guid) && y in w.registry
    {
      WithoutMember(w.registry, Line(e.guid), y);
    }
    assert NoDetections != WithDetections;
  }

  /** The trigger test comes first: a trigger-type event never takes a terminal branch,
      even when its type is also a terminal type. It either changes nothing or starts a
      remediation, never stops isolation, and leaves a fresh event's host registered when
      every line of the file ends in a newline. */
  lemma TriggerTakesPrecedence(build: Build, triggers: seq<string>, last: int, w: World, e: Event)
    requires e.eventType in triggers
    ensures var w' := Step(build, triggers, last, w, e);
      (w' == w
       || w' == World(Appended(w.registry, e.guid),
                      w.log + [FullScan(e.guid), Isolate(e.guid), Email(StartingScanPrefix + e.eventType, e.hostname)]))
      && (forall k :: |w.log| <= k < |w'.log| ==> !w'.log[k].Unisolate?)
      && (e.timestamp > last && AllTerminated(w.registry) ==> Line(e.guid) in w'.registry)
  {
    AppendedShape(w.registry, e.guid);
  }

  /** An event of any other type changes neither the registry nor the log. */
  lemma UnrecognisedEventIgnored(build: Build, triggers: seq<string>, last: int, w: World, e: Event)
    requires e.eventType !in triggers && e.eventType != NoDetections && e.eventType != WithDetections
    ensures Step(build, triggers, last, w, e) == w
  {
  }

  // ---- a batch ----

  /** Handling a batch in two parts is handling it at once. */
  lemma {:induction false} CycleConcat(build: Build, triggers: seq<string>, last: int, w: World, a: seq<Event>, b: seq<Event>)
    ensures Cycle(build, triggers, last, w, a + b)
         == Cycle(build, triggers, last, Cycle(build, triggers, last, w, a), b)
  {
    if b == [] {
      assert a + b == a;
    } else {
      var init := b[..|b| - 1];
      assert (a + b)[..|a + b| - 1] == a + init;
      assert (a + b)[|a + b| - 1] == b[|b| - 1];
      CycleConcat(build, triggers, last, w, a, init);
    }
  }

  /** Only events strictly newer than the checkpoint matter: the batch has the same
      effect as its fresh events alone. */
  lemma {:induction false} OnlyFreshEventsMatter(build: Build, triggers: seq<string>, last: int, w: World, events: seq<Event>)
    ensures Cycle(build, triggers, last, w, events) == Cycle(build, triggers, last, w, Fresh(last, events))
  {
    if events != [] {
      var init := events[..|events| - 1];
      var e := events[|events| - 1];
      OnlyFreshEventsMatter(build, triggers, last, w, init);
      if e.timestamp > last {
        var f := Fresh(last, init) + [e];
        assert f[..|f| - 1] == Fresh(last, init);
      }
    }
  }

  /** A cycle with no event newer than the checkpoint leaves registry and log unchanged
      (a restart over an empty delta changes neither; only the checkpoint moves to the new
      clock reading). */
  lemma {:induction false} EmptyDeltaChangesNothing(build: Build, triggers: seq<string>, last: int, w: World, events: seq<Event>)
    requires forall k :: 0 <= k < |events| ==> events[k].timestamp <= last
    ensures Cycle(build, triggers, last, w, events) == w
  {
    if events != [] {
      EmptyDeltaChangesNothing(build, triggers, last, w, events[..|events| - 1]);
    }
  }

  /** What one event does for host `g`, on a registry whose lines all end in a newline: a
      full scan of `g` is logged exactly when a fresh trigger finds `g` unregistered, and `g`
      is registered afterwards exactly when it was registered and the event does not close
      it, or the event is a fresh trigger for it. */
  lemma StepHostEffect(build: Build, triggers: seq<string>, last: int, w: World, e: Event, g: string)
    requires AllTerminated(w.registry)
    ensures var w' := Step(build, triggers, last, w, e);
      Starts(w'.log, g) == Starts(w.log, g) + (if FreshTrigger(triggers, last, e, g) && Line(g) !in w.registry then 1 else 0)
      && (Line(g) in w'.registry
          <==> (Line(g) in w.registry && !Closes(triggers, last, e, g)) || FreshTrigger(triggers, last, e, g))
  {
    var w' := Step(build, triggers, last, w, e);
    LineInjective(g, e.guid);
    if e.timestamp <= last {
    } else if e.eventType in triggers {
      if Line(e.guid) !in w.registry {
        AppendedShape(w.registry, e.guid);
        var added := [FullScan(e.guid), Isolate(e.guid), Email(StartingScanPrefix + e.eventType, e.hostname)];
        assert w'.log == w.log + added;
        assert multiset(added)[FullScan(g)] == if e.guid == g then 1 else 0;
      }
    } else if e.eventType == NoDetections || e.eventType == WithDetections {
      WithoutMember(w.registry, Line(e.guid), Line(g));
      assert w'.log == w.log + [w'.log[|w.log|]];
    }
  }

  /** A file whose lines all end in a newline keeps that shape through a cycle. */
  lemma {:induction false} CycleKeepsTerminated(build: Build, triggers: seq<string>, last: int, w: World, events: seq<Event>)
    requires AllTerminated(w.registry)
    ensures AllTerminated(Cycle(build, triggers, last, w, events).registry)
  {
    if events != [] {
      var init := events[..|events| - 1];
      var e := events[|events| - 1];
      var mid := Cycle(build, triggers, last, w, init);
      CycleKeepsTerminated(build, triggers, last, w, init);
      AppendedShape(mid.registry, e.guid);
      WithoutKeepsTerminated(mid.registry, Line(e.guid));
    }
  }

  /** Scans and isolations go together: during a cycle every host gets exactly as many new
      isolations as new full scans. */
  lemma {:induction false} IsolationsMatchScans(build: Build, triggers: seq<string>, last: int, w: World, events: seq<Event>, g: string)
    ensures var w' := Cycle(build, triggers, last, w, events);
      Isolations(w'.log, g) - Isolations(w.log, g) == Starts(w'.log, g) - Starts(w.log, g)
  {
    if events != [] {
      var init := events[..|events| - 1];
      IsolationsMatchScans(build, triggers, last, w, init, g);
      StepIsolationsMatchScans(build, triggers, last, Cycle(build, triggers, last, w, init), events[|events| - 1], g);
    }
  }

  /** One event adds as many isolations of `g` as full scans of `g`. */
  lemma StepIsolationsMatchScans(build: Build, triggers: seq<string>, last: int, w: World, e: Event, g: string)
    ensures var w' := Step(build, triggers, last, w, e);
      Isolations(w'.log, g) - Isolations(w.log, g) == Starts(w'.log, g) - Starts(w.log, g)
  {
    var w' := Step(build, triggers, last, w, e);
    if w'.log != w.log {
      var added := w'.log[|w.log|..];
      assert w'.log == w.log + added;
      assert multiset(w'.log) == multiset(w.log) + multiset(added);
      if |added| == 1 {
        assert added[0].Unisolate? || added[0].Email?;
        assert added == [added[0]];
      } else {
        assert added == [FullScan(e.guid), Isolate(e.guid), Email(StartingScanPrefix + e.eventType, e.hostname)];
      }
    }
  }

  /** A host's line appears in a registry whose lines all end in a newline only together with
      a new full scan for it, and scans are never taken back. */
  lemma {:induction false} LineAddedOnlyWithScan(build: Build, triggers: seq<string>, last: int, w: World, events: seq<Event>, g: string)
    requires AllTerminated(w.registry)
    ensures var w' := Cycle(build, triggers, last, w, events);
      Starts(w'.log, g) >= Starts(w.log, g)
      && (Line(g) in w'.registry ==> Line(g) in w.registry || Starts(w'.log, g) > Starts(w.log, g))
  {
    if events != [] {
      var init := events[..|events| - 1];
      var e := events[|events| - 1];
      var mid := Cycle(build, triggers, last, w, init);
      LineAddedOnlyWithScan(build, triggers, last, w, init, g);
      CycleKeepsTerminated(build, triggers, last, w, init);
      StepHostEffect(build, triggers, last, mid, e, g);
    }
  }

  /** Duplicate suppression: while no terminal event for host `g` is seen, a cycle over a
      registry whose lines all end in a newline starts at most one full scan and one
      isolation for it, none if it was already registered, and a registered host stays
      registered. */
  lemma AtMostOneScanPerHost(build: Build, triggers: seq<string>, last: int, w: World, events: seq<Event>, g: string)
    requires AllTerminated(w.registry)
    requires forall k :: 0 <= k < |events| ==> !Closes(triggers, last, events[k], g)
    ensures var w' := Cycle(build, triggers, last, w, events);
      (Line(g) in w.registry ==> Line(g) in w'.registry)
      && Starts(w'.log, g) <= Starts(w.log, g) + (if Line(g) in w.registry then 0 else 1)
      && Isolations(w'.log, g) <= Isolations(w.log, g) + (if Line(g) in w.registry then 0 else 1)
      && (Starts(w'.log, g) > Starts(w.log, g) ==> Line(g) in w'.registry)
  {
    ScansBoundedWithoutTerminal(build, triggers, last, w, events, g);
    IsolationsMatchScans(build, triggers, last, w, events, g);
  }

  /** The induction behind AtMostOneScanPerHost, on full scans alone. */
  lemma {:induction false} ScansBoundedWithoutTerminal(build: Build, triggers: seq<string>, last: int, w: World, events: seq<Event>, g: string)
    requires AllTerminated(w.registry)
    requires forall k :: 0 <= k < |events| ==> !Closes(triggers, last, events[k], g)
    ensures var w' := Cycle(build, triggers, last, w, events);
      (Line(g) in w.registry ==> Line(g) in w'.registry)
      && Starts(w'.log, g) <= Starts(w.log, g) + (if Line(g) in w.registry then 0 else 1)
      && (Starts(w'.log, g) > Starts(w.log, g) ==> Line(g) in w'.registry)
  {
    if events != [] {
      var init := events[..|events| - 1];
      var e := events[|events| - 1];
      var mid := Cycle(build, triggers, last, w, init);
      ScansBoundedWithoutTerminal(build, triggers, last, w, init, g);
      CycleKeepsTerminated(build, triggers, last, w, init);
      assert !Closes(triggers, last, e, g);
      StepHostEffect(build, triggers, last, mid, e, g);
    }
  }

  /** With no terminal event for `g`, one fresh trigger-type event for it leaves it registered
      in a registry whose lines all end in a newline. */
  lemma TriggerLeavesHostRegistered(build: Build, triggers: seq<string>, last: int, w: World, events: seq<Event>, g: string, i: nat)
    requires AllTerminated(w.registry)
    requires forall k :: 0 <= k < |events| ==> !Closes(triggers, last, events[k], g)
    requires i < |events| && FreshTrigger(triggers, last, events[i], g)
    ensures Line(g) in Cycle(build, triggers, last, w, events).registry
  {
    var head, tail := events[..i + 1], events[i + 1..];
    assert events == head + tail;
    assert head[..i] == events[..i];
    CycleConcat(build, triggers, last, w, head, tail);
    var mid := Cycle(build, triggers, last, w, head);
    assert Line(g) in mid.registry by {
      var before := Cycle(build, triggers, last, w, events[..i]);
      CycleKeepsTerminated(build, triggers, last, w, events[..i]);
      AppendedShape(before.registry, g);
    }
    forall k | 0 <= k < |tail|
      ensures !Closes(triggers, last, tail[k], g)
    {
      assert tail[k] == events[i + 1 + k];
    }
    CycleKeepsTerminated(build, triggers, last, w, head);
    ScansBoundedWithoutTerminal(build, triggers, last, mid, tail, g);
  }

  /** No duplicate remediation: a host not registered at cycle start that receives one or
      more fresh trigger-type events and no terminal event is scanned and isolated exactly
      once, provided every line of the registry ends in a newline. */
  lemma ExactlyOneScanPerHost(build: Build, triggers: seq<string>, last: int, w: World, events: seq<Event>, g: string, i: nat)
    requires AllTerminated(w.registry)
    requires forall k :: 0 <= k < |events| ==> !Closes(triggers, last, events[k], g)
    requires i < |events| && FreshTrigger(triggers, last, events[i], g)
    requires Line(g) !in w.registry
    ensures var w' := Cycle(build, triggers, last, w, events);
      Starts(w'.log, g) == Starts(w.log, g) + 1 && Isolations(w'.log, g) == Isolations(w.log, g) + 1
  {
    TriggerLeavesHostRegistered(build, triggers, last, w, events, g, i);
    LineAddedOnlyWithScan(build, triggers, last, w, events, g);
    ScansBoundedWithoutTerminal(build, triggers, last, w, events, g);
    IsolationsMatchScans(build, triggers, last, w, events, g);
  }

  /** A batch of two events is the second handled after the first. */
  lemma CycleOfTwo(build: Build, triggers: seq<string>, last: int, w: World, e: Event, e': Event)
    ensures Cycle(build, triggers, last, w, [e, e'])
         == Step(build, triggers, last, Step(build, triggers, last, w, e), e')
  {
    assert [e, e'][..1] == [e] && [e][..0] == [];
    assert Cycle(build, triggers, last, w, [e]) == Step(build, triggers, last, Cycle(build, triggers, last, w, []), e);
  }

  /** Why the registry must end in a newline: when the file holds one hand-written line `p`
      with no final newline (say "A"), the first trigger for a host joins its line onto `p`
      ("AB\n"), so a second trigger for the same host in the batch is not recognised and the
      host is scanned twice. */
  lemma UnterminatedRegistryRescans(build: Build, triggers: seq<string>, last: int, p: string, e: Event, e': Event)
    requires |p| > 0 && !Terminated(p)
    requires FreshTrigger(triggers, last, e, e.guid) && FreshTrigger(triggers, last, e', e.guid)
    ensures var w' := Cycle(build, triggers, last, World([p], []), [e, e']);
      Line(e.guid) !in [p] && Starts(w'.log, e.guid) == 2
      && w'.registry == [p + Line(e.guid), Line(e.guid)]
  {
    var g := e.guid;
    var w0 := World([p], []);
    CycleOfTwo(build, triggers, last, w0, e, e');
    assert Line(g) != p by {
      LineTerminated([], g);
      assert [] + Line(g) == Line(g);
    }
    TriggerStartsRemediation(build, triggers, last, w0, e);
    assert [p][..0] == [];
    var w1 := Step(build, triggers, last, w0, e);
    assert w1.registry == [p + Line(g)];
    assert Line(g) !in w1.registry by {
      assert |p + Line(g)| > |Line(g)|;
    }
    assert AllTerminated(w1.registry) by {
      LineTerminated(p, g);
    }
    TriggerStartsRemediation(build, triggers, last, w1, e');
    var start := [FullScan(g), Isolate(g), Email(StartingScanPrefix + e.eventType, e.hostname)];
    var start' := [FullScan(g), Isolate(g), Email(StartingScanPrefix + e'.eventType, e'.hostname)];
    assert multiset(start + start')[FullScan(g)] == 2;
  }

  /** A cycle that sees a fresh trigger for an unregistered host and then its fresh clean
      scan starts and ends one remediation: the registry is as before and the log gains scan,
      isolation, alert and stop-isolation. */
  lemma TriggerThenCleanScan(build: Build, triggers: seq<string>, last: int, w: World, e: Event, e': Event)
    requires AllTerminated(w.registry) && Line(e.guid) !in w.registry
    requires FreshTrigger(triggers, last, e, e.guid) && Closes(triggers, last, e', e.guid) && e'.eventType == NoDetections
    ensures Cycle(build, triggers, last, w, [e, e'])
         == World(w.registry, w.log + [FullScan(e.guid), Isolate(e.guid), Email(StartingScanPrefix + e.eventType, e.hostname),
                                       Unisolate(StopIsolationArg(build, e'))])
  {
    CycleOfTwo(build, triggers, last, w, e, e');
    TriggerStartsRemediation(build, triggers, last, w, e);
    var w1 := Step(build, triggers, last, w, e);
    TerminalEventClearsHost(build, triggers, last, w1, e');
    WithoutConcat(w.registry, [Line(e.guid)], Line(e.guid));
    WithoutAbsent(w.registry, Line(e.guid));
    assert [Line(e.guid)][..0] == [];
  }

  /** The two events of the replay scenario are a fresh trigger and a fresh clean scan for
      "A" against any checkpoint before their timestamps. */
  lemma ReplayScenarioEvents(last: int)
    requires last < 150
    ensures var triggers := ["Win.Malware.Generic"];
      FreshTrigger(triggers, last, Event(150, "Win.Malware.Generic", "A", "host-a"), "A")
      && Closes(triggers, last, Event(160, NoDetections, "A", "host-a"), "A")
  {
    assert NoDetections !in ["Win.Malware.Generic"] by {
      assert |NoDetections| != |"Win.Malware.Generic"|;
    }
  }

  /** The clock is read before the feed is fetched and becomes the next checkpoint, and
      every cycle fetches the whole feed again. An event stamped after that reading is
      therefore handled in this cycle and again in the next: a trigger and its clean scan,
      both stamped after the reading 100, start a second remediation of "A". */
  lemma EventReplayedNextCycle()
    ensures var triggers := ["Win.Malware.Generic"];
      var events := [Event(150, "Win.Malware.Generic", "A", "host-a"), Event(160, NoDetections, "A", "host-a")];
      var w1 := Cycle(AsWritten, triggers, 50, World([], []), events);
      var w2 := Cycle(AsWritten, triggers, 100, w1, events);
      Starts(w1.log, "A") == 1 && Starts(w2.log, "A") == 2 && w2.registry == []
  {
    var triggers := ["Win.Malware.Generic"];
    var e := Event(150, "Win.Malware.Generic", "A", "host-a");
    var e' := Event(160, NoDetections, "A", "host-a");
    var remediation := [FullScan("A"), Isolate("A"), Email(StartingScanPrefix + "Win.Malware.Generic", "host-a"),
                        Unisolate(ListLiteral(["connector_guid"]))];
    ReplayScenarioEvents(50);
    ReplayScenarioEvents(100);
    TriggerThenCleanScan(AsWritten, triggers, 50, World([], []), e, e');
    assert [] + remediation == remediation;
    TriggerThenCleanScan(AsWritten, triggers, 100, World([], remediation), e, e');
    assert multiset(remediation)[FullScan("A")] == 1;
    assert multiset(remediation + remediation)[FullScan("A")] == 2;
  }

  // ---- the stop-isolation argument ----

  /** As written, stop_isolation never receives the event's host: whatever the event, it
      gets the one-element list holding the text "connector_guid". */
  lemma AsWrittenStopIsolationMissesHost(triggers: seq<string>, last: int, w: World, e: Event)
    requires e.timestamp > last && e.eventType !in triggers && e.eventType == NoDetections
    ensures var w' := Step(AsWritten, triggers, last, w, e);
      w'.log == w.log + [Unisolate(ListLiteral(["connector_guid"]))]
      && w'.log[|w.log|] != Unisolate(Guid(e.guid))
  {
  }

  /** A concrete batch that shows it: host "A" finishes a clean scan, and the isolation
      that is lifted is not that of "A". */
  lemma AsWrittenCounterexample()
    ensures var w' := Step(AsWritten, [], 50, World([Line("A")], []), Event(200, NoDetections, "A", "host-a"));
      w'.registry == [] && w'.log != [Unisolate(Guid("A"))]
  {
    var w := World([Line("A")], []);
    var e := Event(200, NoDetections, "A", "host-a");
    assert w.registry[..0] == [];
    AsWrittenStopIsolationMissesHost([], 50, w, e);
  }

  /** Corrected, the clean-scan branch lifts the isolation of exactly the event's host. */
  lemma CorrectedStopIsolationTargetsHost(triggers: seq<string>, last: int, w: World, e: Event)
    requires e.timestamp > last && e.eventType !in triggers && e.eventType == NoDetections
    ensures var w' := Step(Corrected, triggers, last, w, e);
      w'.log == w.log + [Unisolate(Guid(e.guid))] && Line(e.guid) !in w'.registry
  {
    WithoutNotMember(w.registry, Line(e.guid));
  }
}
