# AMP auto-scan and isolate: the reconciliation cycle

This project models the core of a daemon that polls the Cisco AMP event feed. When a
configured malicious event type is seen for a host, the daemon invokes its start-full-scan
and start-isolation actuators and sends an e-mail alert. It remembers the host in a line-based "endpoints
currently scanning" file, so the host is not remediated twice. When the platform later
reports "Scan Completed, No Detections", the daemon invokes its stop-isolation actuator and
forgets the host. When it reports "Scan Completed With Detections", the daemon sends an alert and
forgets the host, leaving it isolated. A last-run-time file holds the checkpoint. Only
events strictly newer than the checkpoint are handled. After each batch, the checkpoint
becomes the time captured at the start of the cycle.

Modules:

- `Events` (events.dfy): the event record and the event-type and alert-text constants.
- `Registry` (registry.dfy): the registry file as the list of its lines (class `LineFile`),
  with `append_to_end_of_file`, and `remove_from_file` as a loop that rewrites the kept lines.
  The functions `Line`, `Appended` and `Without` are its specification. `AllTerminated` says
  that every line ends in a newline, as in any file the program wrote itself.
- `Checkpoint` (checkpoint.dfy): the last-run-time file (class `CheckpointFile`). A missing
  file is `None` and is created with the sentinel 847584000.
- `Remote` (remote.dfy): the actuators and `email_alert` as calls appended to a log (class `Outbox`).
- `Reconciler` (reconciler.dfy): `RunCycle`, the body of `main`'s polling loop, and `HandleEvent`,
  one pass of its loop over the batch. They are proved equal to the pure specifications `Cycle`
  (a left-to-right pass over the batch) and `Step` (one event).
- `Properties` (properties.dfy): what a cycle guarantees, proved about `Step` and `Cycle`.

The clock reading, the fetched batch and the trigger list are parameters of `RunCycle`.

### Behaviour of the source worth knowing

- The three actuators `start_full_scan`, `start_isolation` and `stop_isolation` are `pass`
  stubs (lines 91-104). `start_isolation` and `stop_isolation` carry commented-out REST calls;
  `start_full_scan` has none at all. No call reaches the platform, and
  only `email_alert` has an effect. The model's log records which actuator the cycle invokes
  and with what argument. The stop-isolation defect of line 46 (see Findings) therefore has no
  effect until `stop_isolation` is filled in.
- The e-mail subject is always the fixed text "Alert from amp-autoscan-and-isolation". The
  "Starting Full Scan - <type>" text and "Scan Completed With Detections" are the alert
  argument, which goes into the HTML body. The model logs that argument with the host name.
- The checkpoint is overwritten with the cycle's clock reading without comparing it to the
  previous value. It is therefore monotonic only if the clock is.
- `append_to_end_of_file` by itself is not idempotent: a second call adds a second line.
  Only the membership test in the cycle keeps a GUID from being added twice.
  `remove_from_file` removes every copy of the line.
- If the registry file was prepared by hand and its last line has no newline, the first
  append continues that line ("A" becomes "AB\n"). The host's own line is then missing, so
  a later trigger for it is not recognised and the host is scanned again
  (`Properties.UnterminatedRegistryRescans`). Once one append has happened, every line ends
  in a newline, and the duplicate suppression lemmas hold.
- The clock is read (line 30) before the feed is fetched (line 33), and that reading becomes
  the next checkpoint. Every cycle fetches the whole feed again. An event stamped after the
  clock reading is therefore handled in this cycle and again in the next one, so the
  checkpoint does not give a "no event handled twice" interval
  (`Properties.EventReplayedNextCycle`).
- `main` has no `try`/`except`. Any exception inside the `while True` loop ends the daemon, not
  just the cycle: an SMTP failure in `email_alert` (lines 43 and 49), a missing registry file
  (lines 38 and 114), or a `KeyError` on an event without `connector_guid` or
  `computer['hostname']`. An exception after some events of a batch leaves their registry
  changes in place while the checkpoint is not advanced.
- The stop-isolation call does not receive the event's host (see Findings).

## Model

| member | source | states |
|---|---|---|
| Registry.LineFile.ReadLines | event-and-endoint-orchistration.py:38-39 | reading the registry returns its current lines and changes nothing |
| Registry.LineFile.AppendToEnd | event-and-endoint-orchistration.py:107-110 | the file reads back as `s + "\n"` written after its old text: when every old line ends in a newline, that is one new last line after the unchanged old lines; otherwise it continues the old last line; either way the file then ends in a newline |
| Registry.AppendedShape | event-and-endoint-orchistration.py:107-110 | on an empty file or one whose last line ends in a newline, the append adds exactly the line `s + "\n"`, and a file whose lines all end in a newline keeps that shape; on any file, every line before the old last one is kept, an old last line without a newline is continued by `s + "\n"`, no other line is new, and the last line ends in a newline |
| Registry.LineTerminated | event-and-endoint-orchistration.py:109 | whatever text precedes it, the text the append writes ends in a newline |
| Registry.WithoutKeepsTerminated | event-and-endoint-orchistration.py:117-120 | removal keeps a file whose lines all end in a newline in that shape |
| Registry.LineFile.RemoveFrom | event-and-endoint-orchistration.py:113-120 | the filtering loop rewrites the file as exactly the old lines other than `s + "\n"`; afterwards that line is absent; removing an absent line leaves the file unchanged |
| Registry.LineInjective | event-and-endoint-orchistration.py:40 | two GUIDs have the same registry line exactly when they are equal, so a membership test by line is a test by GUID |
| Registry.WithoutNotMember | event-and-endoint-orchistration.py:117-120 | no line equal to the removed one survives the rewrite |
| Registry.WithoutAbsent | event-and-endoint-orchistration.py:117-120 | removing a line that is not in the file is a no-op |
| Registry.WithoutCount | event-and-endoint-orchistration.py:117-119 | every other line keeps its number of occurrences, and the removed line has none |
| Registry.WithoutMember | event-and-endoint-orchistration.py:117-119 | a line is in the rewritten file iff it differs from the removed line and was there before |
| Registry.WithoutConcat | event-and-endoint-orchistration.py:117-119 | the rewrite filters line by line, so the kept lines keep their original relative order |
| Checkpoint.CheckpointFile.GetLastRunTime | event-and-endoint-orchistration.py:59-64 | with no file, the file is created holding 847584000 and that value is returned; otherwise the stored value is returned and the file is unchanged |
| Checkpoint.CheckpointFile.UpdateLastRunTime | event-and-endoint-orchistration.py:71-74 | the file now holds exactly the given time |
| Remote.Outbox.StartFullScan | event-and-endoint-orchistration.py:103-104 | one full-scan call for the GUID is issued after all earlier calls |
| Remote.Outbox.StartIsolation | event-and-endoint-orchistration.py:91-94 | one isolation call for the GUID is issued after all earlier calls |
| Remote.Outbox.StopIsolation | event-and-endoint-orchistration.py:97-100 | one stop-isolation call with the given argument is issued after all earlier calls |
| Remote.Outbox.EmailAlert | event-and-endoint-orchistration.py:123-133 | one alert with the given text and host name is sent after all earlier calls |
| Reconciler.HandleEvent | event-and-endoint-orchistration.py:36-50 | one event leaves the registry and the call log exactly as the specification `Step` gives them, re-reading the registry before the membership test |
| Reconciler.RunCycle | event-and-endoint-orchistration.py:29-53 | the loop over the batch leaves the registry and the call log exactly as the specification `Cycle` gives them, starting from the checkpoint read at cycle start; the checkpoint afterwards is the time captured once at cycle start, whatever the events |
| Properties.StaleEventIgnored | event-and-endoint-orchistration.py:36 | an event whose timestamp is not greater than the checkpoint causes no call and no registry change |
| Properties.TriggerStartsRemediation | event-and-endoint-orchistration.py:37-44 | a fresh trigger-type event for an unregistered host logs full scan, isolation and the "Starting Full Scan - <type>" alert, in that order, and appends the host's GUID to the file; when every line ends in a newline, the host's line is a new last line and the host is then registered |
| Properties.DuplicateTriggerSuppressed | event-and-endoint-orchistration.py:38-40 | a trigger-type event for a host whose line is already registered causes no call and no registry change |
| Properties.TerminalEventClearsHost | event-and-endoint-orchistration.py:45-50 | after either terminal event, the host's line is gone and all other lines are kept; exactly one call is logged: for "With Detections" the alert "Scan Completed With Detections" with the host name, for "No Detections" the stop-isolation call with the argument of line 46; only the first sends an alert and only the second stops isolation |
| Properties.TriggerTakesPrecedence | event-and-endoint-orchistration.py:37-50 | an event whose type is in the trigger list never takes a terminal branch, even when its type is also a terminal type: it either changes nothing or gives exactly the trigger branch's result; it never stops isolation; on a newline-terminated registry, a fresh one leaves its host registered |
| Properties.UnrecognisedEventIgnored | event-and-endoint-orchistration.py:37-50 | an event of any other type changes nothing |
| Properties.CycleConcat | event-and-endoint-orchistration.py:35-50 | a batch's effect is its first part's effect followed by its second part's effect, because each event sees the registry left by the earlier ones |
| Properties.OnlyFreshEventsMatter | event-and-endoint-orchistration.py:35-36 | a batch has the same effect as its events strictly newer than the checkpoint, taken in order |
| Properties.EmptyDeltaChangesNothing | event-and-endoint-orchistration.py:35-36 | a cycle with no event newer than the checkpoint leaves registry and log unchanged |
| Properties.StepHostEffect | event-and-endoint-orchistration.py:36-50 | for one event and any host on a newline-terminated registry: a full scan of the host is logged exactly when a fresh trigger finds it unregistered; the host is registered afterwards exactly when it was registered and the event does not close it, or the event is a fresh trigger for it |
| Properties.CycleKeepsTerminated | event-and-endoint-orchistration.py:35-50 | a registry whose lines all end in a newline keeps that shape through a cycle |
| Properties.StepIsolationsMatchScans | event-and-endoint-orchistration.py:41-42 | one event adds as many isolations of a host as full scans of it |
| Properties.IsolationsMatchScans | event-and-endoint-orchistration.py:35-50 | over a cycle, every host gets exactly as many new isolations as new full scans |
| Properties.LineAddedOnlyWithScan | event-and-endoint-orchistration.py:37-50 | on a newline-terminated registry, scans are never taken back, and a host's line appears during a cycle only together with a new full scan for it |
| Properties.AtMostOneScanPerHost | event-and-endoint-orchistration.py:37-50 | on a newline-terminated registry, with no terminal event for a host in the batch, it gets at most one full scan and at most one isolation, none if it was already registered, and a registered host stays registered |
| Properties.TriggerLeavesHostRegistered | event-and-endoint-orchistration.py:37-44 | on a newline-terminated registry with no terminal event for a host, a fresh trigger-type event for it leaves it registered at cycle end |
| Properties.ExactlyOneScanPerHost | event-and-endoint-orchistration.py:37-44 | on a newline-terminated registry, an unregistered host with at least one fresh trigger-type event and no terminal event is scanned exactly once and isolated exactly once in the cycle |
| Properties.UnterminatedRegistryRescans | event-and-endoint-orchistration.py:38-44 | when the file's only line has no final newline, two fresh triggers for one host scan it twice: the first joins the host's line onto that line, so the second does not find it |
| Properties.TriggerThenCleanScan | event-and-endoint-orchistration.py:36-47 | on a registry whose lines all end in a newline, a fresh trigger for an unregistered host followed by its fresh clean scan leaves the registry as it was and logs scan, isolation, alert and stop-isolation |
| Properties.EventReplayedNextCycle | event-and-endoint-orchistration.py:30-53 | with checkpoint 50 and clock reading 100, a trigger for "A" at 150 and its clean scan at 160 start one remediation in the first cycle and a second one in the next cycle, which sees the same feed |
| Properties.AsWrittenStopIsolationMissesHost | event-and-endoint-orchistration.py:46 | as written, the clean-scan branch calls stop-isolation with the list `["connector_guid"]`, never with the event's GUID |
| Properties.AsWrittenCounterexample | event-and-endoint-orchistration.py:45-47 | for host "A" finishing a clean scan, "A" is removed from the registry, but the logged stop-isolation call is not for "A" |
| Properties.CorrectedStopIsolationTargetsHost | event-and-endoint-orchistration.py:45-47 | corrected, the clean-scan branch stops isolation of exactly the event's host and removes it from the registry |

## Left out

- Fetching events over HTTP (`get_amp_events`) is network I/O, and so are the commented-out REST calls of `start_isolation` and `stop_isolation` (`start_full_scan` has none). The batch is a parameter, and the actuators only append to a log.
- SMTP delivery and the HTML body of `email_alert`, built by a regular expression over the text of the computer record, are left out. Only the alert text and the host name are logged. The mail addresses and server come from configuration and are left out.
- Configuration loading (`get_json_data`, `json_decoder`) is left out. The trigger list is a parameter, and the API credentials are not modelled.
- `time.time()`, `time.sleep(60)` and the endless `while True` are left out. The clock reading is a parameter of one cycle, and repeated cycles are calls of `RunCycle` one after another.
- File existence checks beyond the missing checkpoint file, opening and closing, and crash atomicity are left out. Files are in-memory values. A missing registry file makes the source raise an error; the model always has a registry.
- `int()` parsing of timestamps and of the checkpoint text is left out. Both are integers, so malformed text and its exception are not modelled.
- Properties.AtMostOneScanPerHost: counts full scans and isolations per GUID, but not alerts, because the start alert carries only the alert text and the host name, not the GUID; TriggerStartsRemediation shows that each start sends exactly one alert. It also assumes every registry line ends in a newline, because otherwise the source scans twice (UnterminatedRegistryRescans).
- Properties.ExactlyOneScanPerHost: assumes every registry line ends in a newline, for the same reason.
- Properties.TriggerLeavesHostRegistered: assumes every registry line ends in a newline, for the same reason.
- Properties.LineAddedOnlyWithScan: assumes every registry line ends in a newline; otherwise joining lines can create a line for a GUID that was never scanned.
- Registry.LineFile.ReadLines: the registry is kept as its list of lines. A GUID containing a newline would be split by `readlines` into several lines, and this model does not capture that.
- Exceptions in the middle of a cycle are left out: a failing remote call or SMTP delivery, failing file access, and an event without `timestamp`, `event_type`, `connector_guid` or `computer['hostname']` (a `KeyError` in the source). The model's events always carry these fields, and its cycle always completes.

## Findings

| source | as written | input that shows it | evidently intended | confidence | as-written member | corrected member |
|---|---|---|---|---|---|---|
| event-and-endoint-orchistration.py:46 | `stop_isolation(['connector_guid'], ...)` passes a one-element list holding the text "connector_guid" | a "Scan Completed, No Detections" event for host "A", newer than the checkpoint | `stop_isolation(event['connector_guid'], ...)`, lifting isolation of the event's host | high; not executed | Properties.AsWrittenCounterexample | Properties.CorrectedStopIsolationTargetsHost |

The `Build` parameter of `Reconciler` selects between the two forms. Every other lemma holds for both.
