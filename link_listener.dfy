/**
 * Node B's loop over the one accepted link: read a chunk, skip a lone
 * sentinel, classify the chunk by its "GET" prefix, dial the matching
 * backend and hand the chunk to it. The link and the dials are replaced by
 * the sequence of their outcomes; the loop's output is one decision per read.
 */
module LinkListener {
  import opened Wire

  const PlainBackend: string := "localhost:8855"
  const SecureBackend: string := "localhost:8854"

  const GetPrefix: seq<byte> := Ascii("GET")

  /** What dialing the classified backend and writing the first chunk to it gave. */
  datatype DialOutcome = Connected | DialFailed | FirstWriteFailed

  /** One read of the link, and what the dial it may trigger would give. */
  datatype Arrival = Arrival(read: ReadOutcome, dial: DialOutcome)

  /**
   * What one iteration of the loop does: ignore a sentinel, retry after a
   * read error, drop a chunk whose backend could not be reached, relay a
   * chunk to a backend (its first write being `first`), or stop for good.
   */
  datatype Decision = Skip | Retry | Drop(addr: string) | Relay(addr: string, first: Payload) | Stop

  /** The buffer after `Read`: allocated zeroed in each iteration, then `chunk` stored at its start. */
  function ReadBuffer(chunk: Payload): (buf: seq<byte>)
    ensures |buf| == BufferSize
    ensures buf[..|chunk|] == chunk
    ensures forall i | |chunk| <= i < BufferSize :: buf[i] == 0
  {
    chunk + seq(BufferSize - |chunk|, _ => 0 as byte)
  }

  /** The backend address for what is in `buf`. */
  function Route(buf: seq<byte>): (addr: string)
    ensures addr == PlainBackend || addr == SecureBackend
    ensures addr == PlainBackend <==> |buf| >= 3 && buf[..3] == GetPrefix
  {
    if HasPrefix(buf, GetPrefix) then PlainBackend else SecureBackend
  }

  /**
   * The source tests the whole zero-filled buffer, not `buf[:n]`; since no
   * byte of "GET" is zero, that is the same as testing the chunk itself.
   */
  lemma RouteIgnoresZeroFill(chunk: Payload)
    ensures HasPrefix(ReadBuffer(chunk), GetPrefix) == HasPrefix(chunk, GetPrefix)
    ensures Route(ReadBuffer(chunk)) == Route(chunk)
  {
    var buf := ReadBuffer(chunk);
    if |chunk| < 3 {
      assert buf[|chunk|] == 0;
      assert GetPrefix[|chunk|] != 0;
      assert buf[..3][|chunk|] != GetPrefix[|chunk|];
    } else {
      assert buf[..3] == buf[..|chunk|][..3];
    }
  }

  /** Classification: "GET" at the start selects the plain backend, anything else (also fewer than three bytes) the secure one. */
  lemma RouteByPrefix(chunk: Payload)
    ensures Route(ReadBuffer(chunk)) == PlainBackend <==>
              |chunk| >= 3 && chunk[0] as int == 'G' as int && chunk[1] as int == 'E' as int && chunk[2] as int == 'T' as int
    ensures Route(ReadBuffer(chunk)) != PlainBackend <==> Route(ReadBuffer(chunk)) == SecureBackend
    ensures |chunk| < 3 ==> Route(ReadBuffer(chunk)) == SecureBackend
  {
    RouteIgnoresZeroFill(chunk);
    if |chunk| >= 3 && chunk[0] as int == 'G' as int && chunk[1] as int == 'E' as int && chunk[2] as int == 'T' as int {
      assert chunk[..3] == GetPrefix;
    }
  }

  /** The decision for one arrival, as the body of the loop at b_linux/main.go:70-132 takes it. */
  function Decide(a: Arrival): (d: Decision)
    ensures d == Stop <==> a.read == Eof
    ensures d == Retry <==> a.read == Timeout || a.read == Err
    ensures d == Skip <==> a.read == Chunk(Sentinel)
    ensures d.Relay? <==> a.read.Chunk? && a.read.bytes != Sentinel && a.dial == Connected
    ensures d.Drop? <==> a.read.Chunk? && a.read.bytes != Sentinel && a.dial != Connected
    ensures d.Relay? ==> d.first == a.read.bytes
    ensures (d.Relay? || d.Drop?) ==> d.addr == (if HasPrefix(a.read.bytes, GetPrefix) then PlainBackend else SecureBackend)
  {
    match a.read
    case Eof => Stop
    case Timeout => Retry
    case Err => Retry
    case Chunk(chunk) =>
      if chunk == Sentinel then Skip
      else
        var addr := Route(ReadBuffer(chunk));
        RouteIgnoresZeroFill(chunk);
        if a.dial == Connected then Relay(addr, chunk) else Drop(addr)
  }

  /** The decisions the loop takes over a sequence of arrivals: one per arrival, up to and including the first end of file. */
  function Dispatch(arrivals: seq<Arrival>): (ds: seq<Decision>)
    ensures |ds| <= |arrivals|
  {
    if arrivals == [] then []
    else if Decide(arrivals[0]) == Stop then [Stop]
    else [Decide(arrivals[0])] + Dispatch(arrivals[1..])
  }

  /**
   * The body of one pass of the loop, from the read's outcome to the
   * decision it leads to. It is the same case analysis as `Decide`, kept as
   * the source's sequence of early exits and proved against it; having it
   * as its own method keeps `ServeLink`'s proof small.
   */
  method Pass(a: Arrival) returns (d: Decision)
    ensures d == Decide(a)
  {
    var read, dial := a.read, a.dial;
    if read.Eof? {
      return Stop;
    }
    if !read.Chunk? {
      return Retry;
    }
    var chunk := read.bytes;
    if chunk == Sentinel {
      return Skip;
    }
    var buf := ReadBuffer(chunk);
    var addr := if HasPrefix(buf, GetPrefix) then PlainBackend else SecureBackend;
    if dial == DialFailed {
      return Drop(addr);
    }
    if dial == FirstWriteFailed {
      return Drop(addr);
    }
    d := Relay(addr, chunk);
  }

  /**
   * The loop in `main` after the link is accepted. Each pass takes the next
   * arrival; the loop ends on end of file or when the arrivals run out.
   */
  method ServeLink(arrivals: seq<Arrival>) returns (decisions: seq<Decision>)
    ensures decisions == Dispatch(arrivals)
  {
    decisions := [];
    var i := 0;
    while i < |arrivals|
      invariant 0 <= i <= |arrivals|
      invariant decisions + Dispatch(arrivals[i..]) == Dispatch(arrivals)
    {
      var d := Pass(arrivals[i]);
      DispatchUnfold(arrivals, i);
      i := i + 1;
      decisions := decisions + [d];
      if d == Stop {
        break;
      }
    }
  }

  /** One step of unfolding `Dispatch` at position `i`. */
  lemma DispatchUnfold(arrivals: seq<Arrival>, i: nat)
    requires i < |arrivals|
    ensures Decide(arrivals[i]) == Stop ==> Dispatch(arrivals[i..]) == [Stop]
    ensures Decide(arrivals[i]) != Stop ==> Dispatch(arrivals[i..]) == [Decide(arrivals[i])] + Dispatch(arrivals[i + 1..])
  {
  }

  /** Decisions are positional: the i-th is the decision for the i-th arrival, and only the last can be Stop. */
  lemma {:induction false} DispatchPositional(arrivals: seq<Arrival>)
    ensures forall i | 0 <= i < |Dispatch(arrivals)| :: Dispatch(arrivals)[i] == Decide(arrivals[i])
    ensures forall i | 0 <= i < |Dispatch(arrivals)| - 1 :: Dispatch(arrivals)[i] != Stop
    ensures |Dispatch(arrivals)| < |arrivals| ==> Dispatch(arrivals)[|Dispatch(arrivals)| - 1] == Stop
  {
    if arrivals != [] && Decide(arrivals[0]) != Stop {
      DispatchPositional(arrivals[1..]);
    }
  }

  /** Reads before the first end of file each get their decision; the end of file stops the loop and nothing read after it has any effect. */
  lemma {:induction false} EofIsFinal(before: seq<Arrival>, eof: Arrival, after: seq<Arrival>)
    requires forall i | 0 <= i < |before| :: before[i].read != Eof
    requires eof.read == Eof
    ensures Dispatch(before + [eof] + after) == Dispatch(before + [eof])
    ensures Dispatch(before + [eof]) == Dispatch(before) + [Stop]
    ensures |Dispatch(before)| == |before| && Stop !in Dispatch(before)
  {
    if before == [] {
      assert (before + [eof] + after)[0] == eof;
    } else {
      assert (before + [eof] + after)[1..] == before[1..] + [eof] + after;
      assert (before + [eof])[1..] == before[1..] + [eof];
      EofIsFinal(before[1..], eof, after);
    }
  }
}
