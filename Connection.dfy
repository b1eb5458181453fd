/**
 * The task spawned for each accepted connection: read the CONNECT request,
 * open the SOCKS5 tunnel, answer the browser, then relay. The outcomes of the
 * task's I/O are inputs: the first read from the browser, the resolver, the
 * SOCKS5 connector (success or failure for a target) and whether the reply
 * could be written.
 */
module Connection {
  import opened Base
  import opened Response
  import opened ConnectParser
  import opened RelayEngine

  /** Size of the buffer the CONNECT request is read into. */
  const HandshakeBufferSize: nat := 1024

  /** A negotiated SOCKS5 tunnel to `target`. */
  datatype UpstreamStream = UpstreamStream(target: Target)

  /**
   * What the handshake did: names given to the resolver, targets given to
   * the SOCKS5 connector, writes offered to the browser and shutdowns
   * requested, each in order.
   */
  datatype HandshakeLog = HandshakeLog(
    lookups: seq<string>,
    socksRequests: seq<Target>,
    toClient: seq<seq<byte>>,
    shutdowns: seq<Side>)

  /** The first read delivered at least one byte. */
  predicate RequestRead(read: ReadResult) {
    read.Got? && |read.bytes| > 0
  }

  /** A request was read and parsed into a target, so the SOCKS5 connector is called. */
  predicate TunnelRequested(read: ReadResult, req: RequestHead, lookup: string -> Resolution) {
    RequestRead(read) && ConnectResult(req, lookup).Ok?
  }

  /** ... and the connector succeeded. */
  predicate TunnelOpened(read: ReadResult, req: RequestHead, lookup: string -> Resolution, socks: Target -> bool) {
    TunnelRequested(read, req, lookup) && socks(ConnectResult(req, lookup).value)
  }

  /** The shutdowns the handshake requests, by outcome. */
  function HandshakeShutdowns(read: ReadResult, req: RequestHead, lookup: string -> Resolution,
                              socks: Target -> bool, writeOk: bool): (order: seq<Side>)
    // the upstream stream is named only if it was opened and the reply could not be written
    ensures Upstream in order <==> TunnelOpened(read, req, lookup, socks) && !writeOk
    // the browser is named on a failed read and on every failure after a target was parsed
    ensures Client in order <==>
      read.Failed? || (TunnelRequested(read, req, lookup) && !(TunnelOpened(read, req, lookup, socks) && writeOk))
    // a closed browser or a request that does not parse names nothing
    ensures read.Got? && !TunnelRequested(read, req, lookup) ==> order == []
    ensures order != [] ==> order[0] == Client
    ensures forall i, j :: 0 <= i < j < |order| ==> order[i] != order[j]
  {
    if read.Failed? then [Client]
    else if !TunnelRequested(read, req, lookup) then []
    else if !TunnelOpened(read, req, lookup, socks) then [Client]
    else if !writeOk then [Client, Upstream]
    else []
  }

  /**
   * The handshake half of the task, up to the `connect_phase` test. The
   * reply is offered to the browser exactly when the SOCKS5 connector
   * succeeded; `connectPhase` drops to false exactly when that reply was
   * also written, and at that moment `s5stream` holds the tunnel.
   */
  method Handshake(read: ReadResult, req: RequestHead, lookup: string -> Resolution,
                   socks: Target -> bool, writeOk: bool)
    returns (connectPhase: bool, s5stream: Option<UpstreamStream>, log: HandshakeLog)
    requires read.Got? ==> |read.bytes| <= HandshakeBufferSize
    ensures log.lookups == if RequestRead(read) && MethodAccepted(req) then [req.path] else []
    ensures log.socksRequests ==
      if TunnelRequested(read, req, lookup) then [ConnectResult(req, lookup).value] else []
    ensures log.toClient == if TunnelOpened(read, req, lookup, socks) then [OkResponse] else []
    ensures !connectPhase <==> TunnelOpened(read, req, lookup, socks) && writeOk
    ensures s5stream == if connectPhase then None else Some(UpstreamStream(ConnectResult(req, lookup).value))
    ensures log.shutdowns == HandshakeShutdowns(read, req, lookup, socks, writeOk)
  {
    var buf := new byte[HandshakeBufferSize];
    connectPhase := true;
    s5stream := None;
    log := HandshakeLog([], [], [], []);
    match read {
      case Failed =>
        log := log.(shutdowns := [Client]);
      case Got(bytes) =>
        var n := ReadInto(buf, bytes);
        if n > 0 {
          var parsed, lookups := ProcessHttpConnect(req, lookup);
          log := log.(lookups := lookups);
          match parsed {
            case Ok(target) =>
              log := log.(socksRequests := [target]);
              if socks(target) {
                var len := FormHttpResponse(buf);
                log := log.(toClient := [buf[..len]]);
                if writeOk {
                  s5stream := Some(UpstreamStream(target));
                  connectPhase := false;
                } else {
                  log := log.(shutdowns := [Client, Upstream]);
                }
              } else {
                log := log.(shutdowns := [Client]);
              }
            case Err(_) =>
          }
        }
    }
  }

  /** Everything one connection's task did, start to end. */
  datatype ConnectionLog = ConnectionLog(
    lookups: seq<string>,
    socksRequests: seq<Target>,
    tunnel: Option<Target>,
    toClient: seq<seq<byte>>,
    toUpstream: seq<seq<byte>>,
    shutdowns: seq<Side>,
    relayed: bool,
    ended: bool)

  /**
   * The whole task: handshake, then the relay when `connectPhase` is false.
   * `events` is the order in which the relay's reads complete; the task has
   * ended unless it is relaying and no event in `events` ended the relay.
   */
  method ConnectionTask(read: ReadResult, req: RequestHead, lookup: string -> Resolution,
                        socks: Target -> bool, writeOk: bool, events: seq<RelayEvent>)
    returns (log: ConnectionLog)
    requires read.Got? ==> |read.bytes| <= HandshakeBufferSize
    requires forall i :: 0 <= i < |events| && events[i].result.Got? ==> |events[i].result.bytes| <= RelayBufferSize
    ensures log.relayed <==> TunnelOpened(read, req, lookup, socks) && writeOk
    ensures log.tunnel == if log.relayed then Some(ConnectResult(req, lookup).value) else None
    ensures log.lookups == if RequestRead(read) && MethodAccepted(req) then [req.path] else []
    ensures log.socksRequests ==
      if TunnelRequested(read, req, lookup) then [ConnectResult(req, lookup).value] else []
    ensures log.toClient ==
      (if TunnelOpened(read, req, lookup, socks) then [OkResponse] else []) +
      (if log.relayed then Forwarded(events[..FirstEnd(events)], Upstream) else [])
    ensures log.toUpstream == if log.relayed then Forwarded(events[..FirstEnd(events)], Client) else []
    ensures log.shutdowns ==
      HandshakeShutdowns(read, req, lookup, socks, writeOk) +
      (if log.relayed && FirstEnd(events) < |events| then ShutdownOrder(events[FirstEnd(events)]) else [])
    ensures log.ended <==> !log.relayed || FirstEnd(events) < |events|
  {
    var connectPhase, s5stream, h := Handshake(read, req, lookup, socks, writeOk);
    log := ConnectionLog(h.lookups, h.socksRequests, None, h.toClient, [], h.shutdowns, false, true);
    if !connectPhase {
      // the `unwrap` of the stream: Handshake's contract makes it a `Some` here
      var s5 := s5stream.value;
      var r := RunRelay(events);
      log := log.(tunnel := Some(s5.target),
                  toClient := log.toClient + r.toClient,
                  toUpstream := r.toUpstream,
                  shutdowns := log.shutdowns + r.shutdowns,
                  relayed := true,
                  ended := r.ended);
    }
  }
}
