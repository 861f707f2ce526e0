/**
 * Node B's link-to-backend goroutine (b_linux/main.go:104-127): after the
 * first chunk of a frame has reached the backend, keep reading the link and
 * forwarding each chunk to the backend until a sentinel or an error.
 *
 * The read deadline of each pass is armed on the backend connection, not on
 * the link that is then read; the model keeps that: the `deadline` outcome of
 * a poll is the backend's `SetReadDeadline`. No deadline is ever set on B's
 * link, so a link read on B never gives `Timeout`; the outcome type still
 * admits it, and the loop treats it like any other read error.
 */
module Forwarder {
  import opened Wire

  /** Why the goroutine stopped. */
  datatype ForwardEnd =
    | DeadlineFailed      // SetReadDeadline on the backend failed: return without closing it
    | LinkReadFailed      // any read error on the link, end of file included
    | SentinelReceived    // a read whose whole content is the sentinel
    | BackendWriteFailed  // writing the chunk to the backend failed
    | Exhausted           // the model's outcomes ran out while still forwarding

  /** The chunks written to the backend, in order, and how the goroutine ended. */
  datatype Forwarding = Forwarding(written: seq<Payload>, end: ForwardEnd)

  /** A pass of the loop that forwards its chunk and goes round again. */
  predicate Passes(p: Poll)
  {
    p.deadline == Ok && p.read.Chunk? && p.read.bytes != Sentinel && p.write == Ok
  }

  /** Why a pass that does not go round again ends the goroutine. */
  function EndOf(p: Poll): ForwardEnd
  {
    if p.deadline == Failed then DeadlineFailed
    else if !p.read.Chunk? then LinkReadFailed
    else if p.read.bytes == Sentinel then SentinelReceived
    else BackendWriteFailed
  }

  /** What the goroutine writes to the backend over a sequence of polls. */
  function Forward(polls: seq<Poll>): (r: Forwarding)
    ensures |r.written| <= |polls|
  {
    if polls == [] then Forwarding([], Exhausted)
    else if !Passes(polls[0]) then Forwarding([], EndOf(polls[0]))
    else
      var rest := Forward(polls[1..]);
      Forwarding([polls[0].read.bytes] + rest.written, rest.end)
  }

  /**
   * The goroutine reaches `server.Close()` on every exit from its loop except
   * the failed deadline, which returns early. When the outcomes run out it is
   * still inside the loop and has closed nothing.
   */
  predicate ClosesBackend(end: ForwardEnd)
  {
    end != DeadlineFailed && end != Exhausted
  }

  /** The goroutine's loop. `closed` tells whether it reaches `server.Close()` itself. */
  method ForwardToBackend(polls: seq<Poll>) returns (written: seq<Payload>, end: ForwardEnd, closed: bool)
    ensures Forwarding(written, end) == Forward(polls)
    ensures closed == ClosesBackend(end)
  {
    written := [];
    var i := 0;
    end := Exhausted;
    while i < |polls|
      invariant 0 <= i <= |polls|
      invariant Forward(polls) == Forwarding(written + Forward(polls[i..]).written, Forward(polls[i..]).end)
    {
      var p := polls[i];
      assert polls[i..][1..] == polls[i + 1..];
      if p.deadline == Failed {
        end := DeadlineFailed;
        return written, end, false;
      }
      if !p.read.Chunk? {
        end := LinkReadFailed;
        break;
      }
      var chunk := p.read.bytes;
      if chunk == Sentinel {
        end := SentinelReceived;
        break;
      }
      if p.write == Failed {
        end := BackendWriteFailed;
        break;
      }
      written := written + [chunk];
      i := i + 1;
    }
    closed := end != Exhausted;
  }

  /**
   * The backend receives exactly the chunks read, in order, one per pass,
   * and never the sentinel; the goroutine stops at the first pass that does
   * not go round, for the reason that pass gives.
   */
  lemma {:induction false} ForwardInOrder(polls: seq<Poll>)
    ensures forall i | 0 <= i < |Forward(polls).written| ::
              Passes(polls[i]) && Forward(polls).written[i] == polls[i].read.bytes
    ensures Sentinel !in Forward(polls).written
    ensures |Forward(polls).written| == |polls| ==> Forward(polls).end == Exhausted
    ensures |Forward(polls).written| < |polls| ==>
              !Passes(polls[|Forward(polls).written|]) && Forward(polls).end == EndOf(polls[|Forward(polls).written|])
  {
    if polls != [] && Passes(polls[0]) {
      ForwardInOrder(polls[1..]);
    }
  }

  /**
   * Byte fidelity of one frame: when every pass succeeds on the chunks `cs`
   * (none of them the sentinel) and then a pass stops, the backend has
   * received exactly `cs`, and nothing after the stop matters.
   */
  lemma {:induction false} ForwardFrame(cs: seq<Payload>, stop: Poll, after: seq<Poll>)
    requires Sentinel !in cs
    requires !Passes(stop)
    ensures Forward(Steady(cs) + [stop] + after) == Forwarding(cs, EndOf(stop))
  {
    if cs == [] {
      assert (Steady(cs) + [stop] + after)[0] == stop;
    } else {
      assert (Steady(cs) + [stop] + after)[1..] == Steady(cs[1..]) + [stop] + after;
      ForwardFrame(cs[1..], stop, after);
      assert [cs[0]] + cs[1..] == cs;
    }
  }

  /** The hand-off: a pass that reads the lone sentinel ends the goroutine and closes the backend. */
  lemma SentinelEndsFrame(cs: seq<Payload>, write: Ack, after: seq<Poll>)
    requires Sentinel !in cs
    ensures Forward(Steady(cs) + [Poll(Ok, Chunk(Sentinel), write)] + after) == Forwarding(cs, SentinelReceived)
    ensures ClosesBackend(SentinelReceived)
  {
    ForwardFrame(cs, Poll(Ok, Chunk(Sentinel), write), after);
  }
}
