/**
 * The relay phase: after the tunnel is up, the task waits on a read from
 * either stream, forwards what it got to the other stream, and stops at the
 * first closed or failed read. Which read completes first is the scheduler's
 * choice; the model takes the resulting order as a sequence of events.
 */
module RelayEngine {
  import opened Base

  /** Size of each of the two relay buffers. */
  const RelayBufferSize: nat := 2048

  /** The read on `side` completed with `result`. */
  datatype RelayEvent = Read(side: Side, result: ReadResult)

  /** A read of zero bytes or a failed read ends the relay. */
  predicate Ends(e: RelayEvent) {
    e.result.Failed? || |e.result.bytes| == 0
  }

  /** The bytes a non-ending read on `side` forwards, if any. */
  predicate Carries(e: RelayEvent, side: Side) {
    e.side == side && !Ends(e)
  }

  /** Index of the first ending event, or the number of events if none ends. */
  function FirstEnd(events: seq<RelayEvent>): (k: nat)
    ensures k <= |events|
    ensures forall i :: 0 <= i < k ==> !Ends(events[i])
    ensures k < |events| ==> Ends(events[k])
  {
    if events == [] || Ends(events[0]) then 0 else 1 + FirstEnd(events[1..])
  }

  /** The chunks read from `side`, in the order they were read. */
  function Forwarded(events: seq<RelayEvent>, side: Side): (chunks: seq<seq<byte>>)
    ensures |chunks| <= |events|
    ensures forall j :: 0 <= j < |chunks| ==> |chunks[j]| > 0
  {
    if events == [] then []
    else (if Carries(events[0], side) then [events[0].result.bytes] else []) + Forwarded(events[1..], side)
  }

  /** The order in which the two streams are asked to shut down when `e` ends the relay. */
  function ShutdownOrder(e: RelayEvent): (order: seq<Side>)
    requires Ends(e)
    ensures multiset(order) == multiset{Client, Upstream}
  {
    if e.side == Client && e.result.Got? then [Client, Upstream] else [Upstream, Client]
  }

  /** What the relay did: the writes it offered to each stream and the shutdowns it requested. */
  datatype RelayLog = RelayLog(toUpstream: seq<seq<byte>>, toClient: seq<seq<byte>>, shutdowns: seq<Side>, ended: bool)

  /**
   * The relay loop. Every read of n > 0 bytes lands in that direction's
   * buffer and `buf[..n]` is offered to the other stream; the first read of
   * zero bytes or the first error requests shutdown of both streams and ends
   * the task. Events after that are never looked at.
   */
  method RunRelay(events: seq<RelayEvent>) returns (log: RelayLog)
    requires forall i :: 0 <= i < |events| && events[i].result.Got? ==> |events[i].result.bytes| <= RelayBufferSize
    ensures log.toUpstream == Forwarded(events[..FirstEnd(events)], Client)
    ensures log.toClient == Forwarded(events[..FirstEnd(events)], Upstream)
    ensures log.ended <==> FirstEnd(events) < |events|
    ensures log.shutdowns == if log.ended then ShutdownOrder(events[FirstEnd(events)]) else []
  {
    var recvBuf := new byte[RelayBufferSize];
    var sendBuf := new byte[RelayBufferSize];
    var toUpstream: seq<seq<byte>> := [];
    var toClient: seq<seq<byte>> := [];
    var i := 0;
    while i < |events|
      invariant 0 <= i <= FirstEnd(events)
      invariant toUpstream == Forwarded(events[..i], Client)
      invariant toClient == Forwarded(events[..i], Upstream)
    {
      var e := events[i];
      if Ends(e) {
        log := RelayLog(toUpstream, toClient, ShutdownOrder(e), true);
        return;
      }
      if e.side == Client {
        var n := ReadInto(recvBuf, e.result.bytes);
        toUpstream := toUpstream + [recvBuf[..n]];
      } else {
        var n := ReadInto(sendBuf, e.result.bytes);
        toClient := toClient + [sendBuf[..n]];
      }
      ForwardedStep(events, i, Client);
      ForwardedStep(events, i, Upstream);
      i := i + 1;
    }
    assert events[..i] == events;
    log := RelayLog(toUpstream, toClient, [], false);
  }

  /** A completed read as the buffer sees it: the delivered bytes fill its front. */
  method ReadInto(buf: array<byte>, bytes: seq<byte>) returns (n: nat)
    requires |bytes| <= buf.Length
    modifies buf
    ensures n == |bytes| && buf[..n] == bytes
  {
    n := |bytes|;
    forall j | 0 <= j < n {
      buf[j] := bytes[j];
    }
  }

  /** One more non-ending event adds at most its own chunk, at the end. */
  lemma ForwardedStep(events: seq<RelayEvent>, i: nat, side: Side)
    requires i < |events| && !Ends(events[i])
    ensures Forwarded(events[..i + 1], side) ==
      Forwarded(events[..i], side) + (if events[i].side == side then [events[i].result.bytes] else [])
  {
    var e := events[i];
    assert [e][1..] == [];
    assert events[..i + 1] == events[..i] + [e];
    ForwardedAppend(events[..i], [e], side);
  }

  /** Forwarding keeps order: the chunks of a concatenation are the chunks of each part, in turn. */
  lemma {:induction false} ForwardedAppend(a: seq<RelayEvent>, b: seq<RelayEvent>, side: Side)
    ensures Forwarded(a + b, side) == Forwarded(a, side) + Forwarded(b, side)
  {
    if a == [] {
      assert a + b == b;
    } else {
      var ab := a + b;
      assert ab[0] == a[0];
      assert ab[1..] == a[1..] + b;
      var head := if Carries(a[0], side) then [a[0].result.bytes] else [];
      assert Forwarded(ab, side) == head + Forwarded(a[1..] + b, side);
      assert Forwarded(a, side) == head + Forwarded(a[1..], side);
      ForwardedAppend(a[1..], b, side);
    }
  }

  /** The events of one stream, in order. */
  function EventsOf(events: seq<RelayEvent>, side: Side): (mine: seq<RelayEvent>)
    ensures forall j :: 0 <= j < |mine| ==> mine[j].side == side
  {
    if events == [] then []
    else (if events[0].side == side then [events[0]] else []) + EventsOf(events[1..], side)
  }

  /** On any list of events, what one side's reads forward depends only on the reads of that side. */
  lemma {:induction false} ForwardedOwnStream(events: seq<RelayEvent>, side: Side)
    ensures Forwarded(events, side) == Forwarded(EventsOf(events, side), side)
  {
    if events != [] {
      ForwardedOwnStream(events[1..], side);
      var head := if events[0].side == side then [events[0]] else [];
      ForwardedAppend(head, EventsOf(events[1..], side), side);
    }
  }

  /**
   * Two schedules whose relays consumed the same reads on one side, up to
   * where each relay stopped, forward the same chunks from that side. Where
   * the relay stops does depend on the interleaving: an ending read on the
   * other side cuts it short.
   */
  lemma ForwardedIgnoresInterleaving(e1: seq<RelayEvent>, e2: seq<RelayEvent>, side: Side)
    requires EventsOf(e1[..FirstEnd(e1)], side) == EventsOf(e2[..FirstEnd(e2)], side)
    ensures Forwarded(e1[..FirstEnd(e1)], side) == Forwarded(e2[..FirstEnd(e2)], side)
  {
    ForwardedOwnStream(e1[..FirstEnd(e1)], side);
    ForwardedOwnStream(e2[..FirstEnd(e2)], side);
  }

  /** Once an event has ended the relay, whatever would have come after is irrelevant. */
  lemma {:induction false} EventsAfterEndIgnored(events: seq<RelayEvent>, later: seq<RelayEvent>)
    requires FirstEnd(events) < |events|
    ensures FirstEnd(events + later) == FirstEnd(events)
    ensures (events + later)[..FirstEnd(events) + 1] == events[..FirstEnd(events) + 1]
  {
    if !Ends(events[0]) {
      assert (events + later)[1..] == events[1..] + later;
      EventsAfterEndIgnored(events[1..], later);
    }
  }
}
