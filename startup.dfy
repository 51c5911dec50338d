/**
 * Server start-up: the default port, and the retry on the next port while the current one
 * is in use, at most MAX_PORT_RETRIES times.
 */
module Startup {

  const FALLBACK_PORT := 3000
  const MAX_PORT_RETRIES := 5
  const EXIT_FAILURE := 1

  /** `Number(process.env.PORT)`: NaN for an unset or non-numeric variable, 0 for an empty one. */
  datatype PortNumber = NaN | Numeric(value: int)

  /** `Number(process.env.PORT) || 3000`. */
  function DefaultPort(env: PortNumber): (port: int)
    ensures port != 0
    ensures env.Numeric? && env.value != 0 ==> port == env.value
    ensures env.NaN? || env.value == 0 ==> port == FALLBACK_PORT
  {
    if env.Numeric? && env.value != 0 then env.value else FALLBACK_PORT
  }

  /** What one `app.listen(port)` ends in: the listening callback, or an `error` event by code. */
  datatype ListenResult = Listening | AddressInUse | OtherError

  /** Running on `port` (`onFallback` picks the "busy ... fallback port" message), or `process.exit(code)` after failing on `port`. */
  datatype StartOutcome = Running(port: int, onFallback: bool) | Exited(port: int, code: int)

  /**
   * `startServer(port, attempt)`, which calls itself from its `error` handler. From attempt
   * `attempt` on `port`: the outcome's port lies within the ports still allowed, every port
   * before it was in use, and the outcome is decided by that port's own result: listening
   * there, or an exit with status 1 on another error or on the last allowed port.
   */
  function StartFrom(port: int, attempt: nat, listen: int -> ListenResult): (o: StartOutcome)
    requires attempt <= MAX_PORT_RETRIES
    ensures port <= o.port <= port + (MAX_PORT_RETRIES - attempt)
    ensures forall p :: port <= p < o.port ==> listen(p) == AddressInUse
    ensures o.Running? <==> listen(o.port) == Listening
    ensures o.Running? ==> o.onFallback == (attempt + (o.port - port) > 0)
    ensures o.Exited? ==> o.code == EXIT_FAILURE
    ensures o.Exited? && listen(o.port) == AddressInUse ==> o.port == port + (MAX_PORT_RETRIES - attempt)
    decreases MAX_PORT_RETRIES - attempt
  {
    match listen(port)
    case Listening => Running(port, attempt > 0)
    case AddressInUse =>
      if attempt < MAX_PORT_RETRIES then StartFrom(port + 1, attempt + 1, listen) else Exited(port, EXIT_FAILURE)
    case OtherError => Exited(port, EXIT_FAILURE)
  }

  /**
   * `startServer(DEFAULT_PORT)` as a loop over (port, attempt): the same outcome as the
   * recursion; at most six ports, from the default one up, are tried.
   */
  method StartServer(defaultPort: int, listen: int -> ListenResult) returns (outcome: StartOutcome)
    ensures outcome == StartFrom(defaultPort, 0, listen)
    ensures defaultPort <= outcome.port <= defaultPort + MAX_PORT_RETRIES
    ensures forall p :: defaultPort <= p < outcome.port ==> listen(p) == AddressInUse
    ensures outcome.Running? <==> listen(outcome.port) == Listening
    ensures outcome.Running? ==> outcome.onFallback == (outcome.port != defaultPort)
    ensures outcome.Exited? ==> outcome.code == EXIT_FAILURE
    ensures outcome.Exited? && listen(outcome.port) == AddressInUse ==> outcome.port == defaultPort + MAX_PORT_RETRIES
  {
    var port, attempt := defaultPort, 0;
    var result := listen(port);
    while result == AddressInUse && attempt < MAX_PORT_RETRIES
      invariant 0 <= attempt <= MAX_PORT_RETRIES
      invariant port == defaultPort + attempt
      invariant result == listen(port)
      invariant StartFrom(port, attempt, listen) == StartFrom(defaultPort, 0, listen)
      invariant forall p :: defaultPort <= p < port ==> listen(p) == AddressInUse
      decreases MAX_PORT_RETRIES - attempt
    {
      port, attempt := port + 1, attempt + 1;
      result := listen(port);
    }
    if result == Listening {
      outcome := Running(port, attempt > 0);
    } else {
      outcome := Exited(port, EXIT_FAILURE);
    }
  }
}
