// The remote actions and the e-mail alert, recorded in the order they are issued.

module Remote {
  /** What is passed as the host to a remote call: a GUID string, or a Python list literal. */
  datatype HostArg = Guid(id: string) | ListLiteral(items: seq<string>)

  datatype Action =
    | FullScan(guid: string)
    | Isolate(guid: string)
    | Unisolate(target: HostArg)
    | Email(alert: string, hostname: string)

  /** Every actuator or alert invocation, oldest first. */
  class Outbox {
    var log: seq<Action>

    constructor ()
      ensures log == []
    {
      log := [];
    }

    /** `start_full_scan` */
    method StartFullScan(guid: string)
      modifies this
      ensures log == old(log) + [FullScan(guid)]
    {
      log := log + [FullScan(guid)];
    }

    /** `start_isolation` */
    method StartIsolation(guid: string)
      modifies this
      ensures log == old(log) + [Isolate(guid)]
    {
      log := log + [Isolate(guid)];
    }

    /** `stop_isolation` */
    method StopIsolation(target: HostArg)
      modifies this
      ensures log == old(log) + [Unisolate(target)]
    {
      log := log + [Unisolate(target)];
    }

    /** `email_alert`: only the alert text and the host name are kept. */
    method EmailAlert(alert: string, hostname: string)
      modifies this
      ensures log == old(log) + [Email(alert, hostname)]
    {
      log := log + [Email(alert, hostname)];
    }
  }
}
