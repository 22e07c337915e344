// The event feed as the reconciler sees it, and the event-type names it reacts to.

module Events {
  /** One record of the event feed: `timestamp`, `event_type`, `connector_guid` and the
      `hostname` of the `computer` record (the only part of it an alert uses). */
  datatype Event = Event(timestamp: int, eventType: string, guid: string, hostname: string)

  /** Terminal event type: the scan found nothing, isolation is lifted. */
  const NoDetections: string := "Scan Completed, No Detections"

  /** Terminal event type: the scan found something, the host stays isolated. */
  const WithDetections: string := "Scan Completed With Detections"

  /** Alert text sent when a remediation starts is this prefix followed by the event type. */
  const StartingScanPrefix: string := "Starting Full Scan - "
}
