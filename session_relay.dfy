/**
 * Node A's relay for one accepted client (`handleConn`): an outbound copy
 * from the client onto the link, and an inbound loop that polls the link
 * with a short read deadline and writes what it reads to the client.
 */
module SessionRelay {
  import opened Wire

  /** The error text after which the outbound copy tells B to drop its backend. */
  const ResetText: string := "splice: connection reset by peer"

  /** How the opaque client-to-link copy ended. */
  datatype CopyOutcome = Copied | CopyFailed(text: string)

  /**
   * What the outbound goroutine writes on the link itself once the copy is over:
   * the sentinel once when the copy failed with the reset text, else nothing.
   */
  function OutboundTail(o: CopyOutcome): (w: seq<Payload>)
    ensures w == [] || w == [Sentinel]
    ensures w == [Sentinel] <==> o.CopyFailed? && exists i :: OccursAt(o.text, ResetText, i)
  {
    if o.CopyFailed? && Contains(o.text, ResetText) then [Sentinel] else []
  }

  /** Why the inbound loop stopped; every exit except `Exhausted` closes the client (the deferred `conn.Close()`). */
  datatype InboundEnd =
    | DeadlineFailed     // SetReadDeadline on the link failed
    | LinkReadFailed     // any read error on the link: end of file, a timeout, anything else
    | ClientWriteFailed  // writing to the client failed
    | Exhausted          // the model's outcomes ran out while still relaying

  /** The chunks written to the client, in order, and how the loop ended. */
  datatype Delivery = Delivery(delivered: seq<Payload>, end: InboundEnd)

  /** A pass of the inbound loop that writes its chunk to the client and goes round again. */
  predicate Relays(p: Poll)
  {
    p.deadline == Ok && p.read.Chunk? && p.write == Ok
  }

  /** Why a pass that does not go round again ends the loop. */
  function StopOf(p: Poll): InboundEnd
  {
    if p.deadline == Failed then DeadlineFailed
    else if !p.read.Chunk? then LinkReadFailed
    else ClientWriteFailed
  }

  /** What the inbound loop writes to the client over a sequence of polls of the link. */
  function Inbound(polls: seq<Poll>): (r: Delivery)
    ensures |r.delivered| <= |polls|
  {
    if polls == [] then Delivery([], Exhausted)
    else if !Relays(polls[0]) then Delivery([], StopOf(polls[0]))
    else
      var rest := Inbound(polls[1..]);
      Delivery([polls[0].read.bytes] + rest.delivered, rest.end)
  }

  /** The inbound goroutine's loop: arm the link's deadline, read the link, write `buf[:n]` to the client. */
  method RelayInbound(polls: seq<Poll>) returns (delivered: seq<Payload>, end: InboundEnd)
    ensures Delivery(delivered, end) == Inbound(polls)
  {
    delivered := [];
    var i := 0;
    while i < |polls|
      invariant 0 <= i <= |polls|
      invariant Inbound(polls) == Delivery(delivered + Inbound(polls[i..]).delivered, Inbound(polls[i..]).end)
    {
      var p := polls[i];
      assert polls[i..][1..] == polls[i + 1..];
      if p.deadline == Failed {
        return delivered, DeadlineFailed;
      }
      if !p.read.Chunk? {
        return delivered, LinkReadFailed;
      }
      if p.write == Failed {
        return delivered, ClientWriteFailed;
      }
      delivered := delivered + [p.read.bytes];
      i := i + 1;
    }
    end := Exhausted;
  }

  /**
   * The client receives exactly `buf[:n]` of each successful link read, in
   * order; the loop stops at the first pass that fails, for that pass's reason.
   */
  lemma {:induction false} InboundInOrder(polls: seq<Poll>)
    ensures forall i | 0 <= i < |Inbound(polls).delivered| ::
              Relays(polls[i]) && Inbound(polls).delivered[i] == polls[i].read.bytes
    ensures |Inbound(polls).delivered| == |polls| ==> Inbound(polls).end == Exhausted
    ensures |Inbound(polls).delivered| < |polls| ==>
              !Relays(polls[|Inbound(polls).delivered|]) && Inbound(polls).end == StopOf(polls[|Inbound(polls).delivered|])
  {
    if polls != [] && Relays(polls[0]) {
      InboundInOrder(polls[1..]);
    }
  }

  /**
   * After the chunks `cs` a failing pass ends the session: the client has
   * exactly `cs` (the sentinel, too, is passed on as data) and nothing
   * after the failure is written.
   */
  lemma {:induction false} InboundStopsAtFailure(cs: seq<Payload>, stop: Poll, after: seq<Poll>)
    requires !Relays(stop)
    ensures Inbound(Steady(cs) + [stop] + after) == Delivery(cs, StopOf(stop))
  {
    if cs == [] {
      assert (Steady(cs) + [stop] + after)[0] == stop;
    } else {
      assert (Steady(cs) + [stop] + after)[1..] == Steady(cs[1..]) + [stop] + after;
      InboundStopsAtFailure(cs[1..], stop, after);
      assert [cs[0]] + cs[1..] == cs;
    }
  }

  /** A deadline expiry on the link ends the session exactly like any other read error. */
  lemma TimeoutEndsSession(cs: seq<Payload>, write: Ack, after: seq<Poll>)
    ensures Inbound(Steady(cs) + [Poll(Ok, Timeout, write)] + after) == Delivery(cs, LinkReadFailed)
    ensures Inbound(Steady(cs) + [Poll(Ok, Timeout, write)] + after) == Inbound(Steady(cs) + [Poll(Ok, Err, write)])
  {
    InboundStopsAtFailure(cs, Poll(Ok, Timeout, write), after);
    InboundStopsAtFailure(cs, Poll(Ok, Err, write), []);
    assert Steady(cs) + [Poll(Ok, Err, write)] + [] == Steady(cs) + [Poll(Ok, Err, write)];
  }
}
