/**
 * Values shared by both nodes of the tunnel: bytes, the link's read buffer,
 * the in-band control sentinel, and the outcomes of the socket operations
 * that the model takes as inputs instead of performing them.
 */
module Wire {

  newtype byte = b: int | 0 <= b < 256

  /** Every read on either side goes into a buffer of this many bytes. */
  const BufferSize: nat := 4096

  /** What one successful `Read` can deliver: at most a buffer's worth. */
  type Payload = s: seq<byte> | |s| <= BufferSize

  /** The bytes of an ASCII string literal, as Go's `[]byte("...")` gives them. */
  function Ascii(s: string): (r: seq<byte>)
    requires forall i | 0 <= i < |s| :: s[i] as int < 256
    ensures |r| == |s|
    ensures forall i | 0 <= i < |s| :: r[i] as int == s[i] as int
  {
    seq(|s|, i requires 0 <= i < |s| => s[i] as int as byte)
  }

  /** The reserved control value; it is recognised only as the whole content of one read. */
  const Sentinel: Payload := Ascii("connection-reset")

  lemma SentinelLength()
    ensures |Sentinel| == 16
  {
  }

  /** `bytes.HasPrefix`. */
  predicate HasPrefix(s: seq<byte>, prefix: seq<byte>)
    ensures HasPrefix(s, prefix) <==> |prefix| <= |s| && forall i | 0 <= i < |prefix| :: s[i] == prefix[i]
  {
    |prefix| <= |s| && s[..|prefix|] == prefix
  }

  /** `sub` occurs in `s` starting at index `i`. */
  ghost predicate OccursAt(s: string, sub: string, i: int)
  {
    0 <= i && i + |sub| <= |s| && s[i..i + |sub|] == sub
  }

  /** `strings.Contains`: `sub` occurs somewhere in `s`. */
  function Contains(s: string, sub: string): (b: bool)
    ensures b <==> exists i :: OccursAt(s, sub, i)
    decreases |s|
  {
    if |sub| > |s| then
      assert forall i :: !OccursAt(s, sub, i);
      false
    else if s[..|sub|] == sub then
      assert OccursAt(s, sub, 0);
      true
    else
      var tail := Contains(s[1..], sub);
      assert forall i :: OccursAt(s[1..], sub, i) <==> OccursAt(s, sub, i + 1) by {
        forall i ensures OccursAt(s[1..], sub, i) <==> OccursAt(s, sub, i + 1) {
          if 0 <= i && i + |sub| <= |s| - 1 {
            assert s[1..][i..i + |sub|] == s[i + 1..i + 1 + |sub|];
          }
        }
      }
      assert !OccursAt(s, sub, 0);
      assert forall i :: OccursAt(s, sub, i) ==> i > 0 && OccursAt(s[1..], sub, i - 1);
      tail
  }

  /** The result of one read from a connection. A timeout is the expiry of a read deadline. */
  datatype ReadOutcome = Chunk(bytes: Payload) | Eof | Timeout | Err

  /** The result of an operation that either succeeds or returns an error (a write, a `SetReadDeadline`). */
  datatype Ack = Ok | Failed

  /**
   * One iteration of a deadline-polled relay loop: the result of arming the
   * read deadline, of the read that follows, and of writing what was read.
   */
  datatype Poll = Poll(deadline: Ack, read: ReadOutcome, write: Ack)

  /** The outcomes of a loop iteration in which everything succeeds and `chunk` is read. */
  function SteadyPoll(chunk: Payload): (p: Poll)
  {
    Poll(Ok, Chunk(chunk), Ok)
  }

  /** A run of iterations in which every operation succeeds and the chunks `cs` are read in order. */
  function Steady(cs: seq<Payload>): (ps: seq<Poll>)
  {
    seq(|cs|, i requires 0 <= i < |cs| => SteadyPoll(cs[i]))
  }
}
