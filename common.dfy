/** Values shared by every part of the discovery engine: bytes, optional
    values, the error kinds the engine reports, and a result wrapper that
    stands for Go's `(value, error)` return pairs. */
module Common {

  /** Go's `byte`. */
  type byte = b: int | 0 <= b < 256

  datatype Option<+T> = None | Some(value: T)

  /** One constructor per error the discovery code creates; the comment names
      the message the Go code formats for it. */
  datatype Error =
    | ConnectFailed          // "SNMP connect failed: ..."
    | GetFailed              // "SNMP get failed: ..."
    | WindowsMetricsFailed   // "SNMP get (Windows metrics) failed: ..."
    | LinuxMetricsFailed     // "SNMP get (Linux metrics) failed: ..."
    | ArpWalkFailed          // "ARP Walk failed: ..."
    | LldpWalkFailed         // "LLDP walk failed: ..."
    | WalkFailed             // "SNMP Walk failed: ..."
    | CommandFailed          // an error from running a platform command
    | InvalidGateway(gw: string)  // "Invalid gateway IP: ..."
    | UnsupportedOs          // "Unsupported os"
    | GatewayNotFound        // "Gateway not found"

  /** A Go `(value, error)` pair in which exactly one side is meaningful. */
  datatype Result<+T> = Ok(value: T) | Err(error: Error)

  /** No element occurs twice. */
  predicate NoDuplicates<T(==)>(s: seq<T>) {
    forall i, j :: 0 <= i < j < |s| ==> s[i] != s[j]
  }
}
