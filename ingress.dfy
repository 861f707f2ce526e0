/**
 * Node A's two accept loops (a_linux/main.go:30-40 for port 8855 and
 * 49-62 for port 8854). Each accepted client is handed to `handleConn`
 * on the shared link; on the secure port the sentinel is written on the
 * link first. Accepts are replaced by the sequence of their outcomes.
 */
module Ingress {

  /** The two local listeners, one per service class. */
  datatype Listener = Plain8855 | Secure8854

  /** Stands for an accepted client connection. */
  type ClientId = nat

  datatype AcceptOutcome = Accepted(client: ClientId) | AcceptFailed

  /** A `net.Conn` value: nil, or an accepted client connection. */
  datatype Conn = NilConn | ClientConn(id: ClientId)

  /** The connection `Accept` returns with its outcome: nil when it fails. */
  function AcceptedConn(o: AcceptOutcome): (c: Conn)
    ensures c == NilConn <==> o == AcceptFailed
    ensures o.Accepted? ==> c == ClientConn(o.client)
  {
    match o
    case Accepted(id) => ClientConn(id)
    case AcceptFailed => NilConn
  }

  /** Calling `Close` through a nil `net.Conn` is a nil dereference, which panics. */
  datatype CloseResult = Closed | NilDereference

  function Close(c: Conn): (r: CloseResult)
    ensures r == NilDereference <==> c == NilConn
  {
    if c == NilConn then NilDereference else Closed
  }

  /** Which error branch a loop runs: the one the source has, or the intended one. */
  datatype Branch = AsWritten | Intended

  /** Where a loop is when its outcomes run out: still accepting, returned, or panicked. */
  datatype Exit = Accepting | Returned | NilClosePanic

  /**
   * The error branch after a failed accept that returned `conn`. As
   * written, the 8854 loop calls `conn.Close()` before returning
   * (a_linux/main.go:54); the 8855 loop, and the intended branch on
   * either port, only returns.
   */
  function ErrorBranch(b: Branch, l: Listener, conn: Conn): (e: Exit)
    ensures e != Accepting
    ensures e == NilClosePanic ==> conn == NilConn && l == Secure8854
  {
    if b == AsWritten && l == Secure8854 && Close(conn) == NilDereference then NilClosePanic
    else Returned
  }

  /** The statements of the error branch: close the connection (as written, on 8854 only), then return. */
  method LeaveLoop(b: Branch, l: Listener, conn: Conn) returns (exit: Exit)
    ensures exit == ErrorBranch(b, l, conn)
  {
    if b == AsWritten && l == Secure8854 {
      var closed := Close(conn);
      if closed == NilDereference {
        return NilClosePanic;
      }
    }
    exit := Returned;
  }

  /** How a loop over `accepts` leaves, with error branch `b`. */
  function LoopExit(b: Branch, l: Listener, accepts: seq<AcceptOutcome>): (e: Exit)
    ensures e == Accepting <==> AcceptFailed !in accepts
    ensures e == NilClosePanic <==> b == AsWritten && l == Secure8854 && AcceptFailed in accepts
    ensures e == Returned <==> AcceptFailed in accepts && (b == Intended || l == Plain8855)
  {
    if AcceptFailed !in accepts then Accepting
    else ErrorBranch(b, l, AcceptedConn(AcceptFailed))
  }

  /** What a loop does on the link for its clients: write the sentinel, or start relaying a client. */
  datatype IngressEvent = WriteSentinel | StartRelay(client: ClientId)

  /** What one accepted client causes on listener `l`. */
  function Greeting(l: Listener, c: ClientId): (g: seq<IngressEvent>)
    ensures |g| > 0 && g[|g| - 1] == StartRelay(c)
    ensures WriteSentinel in g <==> l == Secure8854
    ensures l == Secure8854 ==> g[0] == WriteSentinel && |g| == 2
    ensures l == Plain8855 ==> |g| == 1
  {
    if l == Secure8854 then [WriteSentinel, StartRelay(c)] else [StartRelay(c)]
  }

  /** The events of listener `l`'s loop over a sequence of accepts; the first failed accept ends it. */
  function Emit(l: Listener, accepts: seq<AcceptOutcome>): (e: seq<IngressEvent>)
    ensures |e| <= 2 * |accepts|
    ensures e == [] <==> accepts == [] || accepts[0] == AcceptFailed
  {
    if accepts == [] || accepts[0] == AcceptFailed then []
    else Greeting(l, accepts[0].client) + Emit(l, accepts[1..])
  }

  /** The clients accepted before the first failed accept. */
  function Clients(accepts: seq<AcceptOutcome>): (cs: seq<ClientId>)
    ensures |cs| <= |accepts|
    ensures forall i | 0 <= i < |cs| :: accepts[i].Accepted? && cs[i] == accepts[i].client
    ensures |cs| < |accepts| ==> accepts[|cs|] == AcceptFailed
  {
    if accepts == [] || accepts[0] == AcceptFailed then []
    else [accepts[0].client] + Clients(accepts[1..])
  }

  /**
   * The accepting part of one loop: accept, write the sentinel on 8854, hand
   * the client to `handleConn`, and go round until an accept fails or the
   * outcomes run out. `stop` is the index of the failed accept, if any.
   */
  method AcceptUntilFailure(l: Listener, accepts: seq<AcceptOutcome>) returns (events: seq<IngressEvent>, stop: nat)
    ensures events == Emit(l, accepts)
    ensures stop <= |accepts|
    ensures forall j | 0 <= j < stop :: accepts[j] != AcceptFailed
    ensures stop < |accepts| ==> accepts[stop] == AcceptFailed
  {
    events := [];
    stop := 0;
    while stop < |accepts| && accepts[stop] != AcceptFailed
      invariant 0 <= stop <= |accepts|
      invariant forall j | 0 <= j < stop :: accepts[j] != AcceptFailed
      invariant events + Emit(l, accepts[stop..]) == Emit(l, accepts)
    {
      EmitStep(l, accepts, stop, events);
      var c := accepts[stop].client;
      if l == Secure8854 {
        // the sentinel is written before the client is handed over
        events := events + [WriteSentinel, StartRelay(c)];
      } else {
        events := events + [StartRelay(c)];
      }
      stop := stop + 1;
    }
  }

  /**
   * One accept loop with error branch `b`. `exit` tells whether it is still
   * accepting when its outcomes run out, returned after a failed accept, or
   * panicked in the error branch.
   */
  method AcceptLoop(b: Branch, l: Listener, accepts: seq<AcceptOutcome>) returns (events: seq<IngressEvent>, exit: Exit)
    ensures events == Emit(l, accepts)
    ensures exit == LoopExit(b, l, accepts)
  {
    var stop;
    events, stop := AcceptUntilFailure(l, accepts);
    if stop < |accepts| {
      // the failed accept: its connection is nil, and the error branch runs
      assert accepts[stop] in accepts;
      exit := LeaveLoop(b, l, AcceptedConn(accepts[stop]));
    } else {
      assert AcceptFailed !in accepts;
      exit := Accepting;
    }
  }

  /** One step of unfolding `Emit` at position `i`, for an accept that succeeded. */
  lemma EmitUnfold(l: Listener, accepts: seq<AcceptOutcome>, i: nat)
    requires i < |accepts| && accepts[i] != AcceptFailed
    ensures Emit(l, accepts[i..]) == Greeting(l, accepts[i].client) + Emit(l, accepts[i + 1..])
  {
    assert accepts[i..][1..] == accepts[i + 1..];
  }

  /** One pass of the accepting loop keeps its events a prefix of `Emit` with the rest still to come. */
  lemma EmitStep(l: Listener, accepts: seq<AcceptOutcome>, i: nat, events: seq<IngressEvent>)
    requires i < |accepts| && accepts[i] != AcceptFailed
    requires events + Emit(l, accepts[i..]) == Emit(l, accepts)
    ensures (events + Greeting(l, accepts[i].client)) + Emit(l, accepts[i + 1..]) == Emit(l, accepts)
  {
    EmitUnfold(l, accepts, i);
  }

  /** On the secure port every relayed client comes right after its own sentinel write, in accept order. */
  lemma {:induction false} SecureGreetsWithSentinel(accepts: seq<AcceptOutcome>)
    ensures |Emit(Secure8854, accepts)| == 2 * |Clients(accepts)|
    ensures forall i | 0 <= i < |Clients(accepts)| ::
              Emit(Secure8854, accepts)[2 * i] == WriteSentinel &&
              Emit(Secure8854, accepts)[2 * i + 1] == StartRelay(Clients(accepts)[i])
  {
    if accepts != [] && accepts[0] != AcceptFailed {
      SecureGreetsWithSentinel(accepts[1..]);
      var e, cs := Emit(Secure8854, accepts), Clients(accepts);
      var e', cs' := Emit(Secure8854, accepts[1..]), Clients(accepts[1..]);
      assert e == [WriteSentinel, StartRelay(accepts[0].client)] + e';
      forall i | 1 <= i < |cs|
        ensures e[2 * i] == WriteSentinel && e[2 * i + 1] == StartRelay(cs[i])
      {
        assert e[2 * i] == e'[2 * (i - 1)];
        assert e[2 * i + 1] == e'[2 * (i - 1) + 1];
        assert cs[i] == cs'[i - 1];
      }
    }
  }

  /** On the plain port clients are relayed in accept order and no sentinel is ever written. */
  lemma {:induction false} PlainHasNoSentinel(accepts: seq<AcceptOutcome>)
    ensures |Emit(Plain8855, accepts)| == |Clients(accepts)|
    ensures forall i | 0 <= i < |Clients(accepts)| :: Emit(Plain8855, accepts)[i] == StartRelay(Clients(accepts)[i])
    ensures WriteSentinel !in Emit(Plain8855, accepts)
  {
    if accepts != [] && accepts[0] != AcceptFailed {
      PlainHasNoSentinel(accepts[1..]);
    }
  }

  /** A failed accept ends the loop: nothing accepted after it is relayed. */
  lemma {:induction false} AcceptErrorEndsLoop(l: Listener, before: seq<AcceptOutcome>, after: seq<AcceptOutcome>)
    requires AcceptFailed !in before
    ensures Emit(l, before + [AcceptFailed] + after) == Emit(l, before)
    ensures Clients(before + [AcceptFailed] + after) == Clients(before)
  {
    if before == [] {
      assert (before + [AcceptFailed] + after)[0] == AcceptFailed;
    } else {
      assert before[0] in before;
      assert (before + [AcceptFailed] + after)[1..] == before[1..] + [AcceptFailed] + after;
      AcceptErrorEndsLoop(l, before[1..], after);
    }
  }

  /** A loop's events on a prefix of its accepts are a prefix of its events on all of them. */
  lemma {:induction false} EmitPrefix(l: Listener, accepts: seq<AcceptOutcome>, k: nat)
    requires k <= |accepts|
    ensures Emit(l, accepts[..k]) <= Emit(l, accepts)
  {
    if k > 0 && accepts[0] != AcceptFailed {
      assert accepts[..k][1..] == accepts[1..][..k - 1];
      EmitPrefix(l, accepts[1..], k - 1);
    }
  }

  /** What node A's two loops have done, and whether the process is gone. */
  datatype NodeRun = NodeRun(plainEvents: seq<IngressEvent>, secureEvents: seq<IngressEvent>, crashed: bool)

  /**
   * Node A's two accept loops, run side by side with error branch `b`. A
   * panic in either goroutine ends the whole process, and with it the other
   * loop wherever it had got to; `plainAt` says how many of its accepts the
   * 8855 loop had handled at that moment (the interleaving is unspecified).
   * The 8855 loop's error branch never panics (`LoopExit`), so only the
   * 8854 loop can cut the other one short.
   */
  function RunNodeA(b: Branch, plain: seq<AcceptOutcome>, secure: seq<AcceptOutcome>, plainAt: nat): (r: NodeRun)
    ensures r.crashed <==> LoopExit(b, Plain8855, plain) == NilClosePanic || LoopExit(b, Secure8854, secure) == NilClosePanic
    ensures r.secureEvents == Emit(Secure8854, secure)
  {
    var securePanics := LoopExit(b, Secure8854, secure) == NilClosePanic;
    var plainEvents :=
      if securePanics && plainAt <= |plain| then Emit(Plain8855, plain[..plainAt]) else Emit(Plain8855, plain);
    NodeRun(plainEvents, Emit(Secure8854, secure), securePanics)
  }

  /**
   * As written, the process crashes exactly when an accept on 8854 fails.
   * The 8855 loop then has done only a prefix of what it would have done,
   * and for some inputs strictly less.
   */
  lemma SecureAcceptErrorCrashesAsWritten(plain: seq<AcceptOutcome>, secure: seq<AcceptOutcome>, plainAt: nat)
    ensures RunNodeA(AsWritten, plain, secure, plainAt).crashed <==> AcceptFailed in secure
    ensures RunNodeA(AsWritten, plain, secure, plainAt).plainEvents <= Emit(Plain8855, plain)
    ensures RunNodeA(AsWritten, [Accepted(1)], [AcceptFailed], 0).plainEvents == []
    ensures Emit(Plain8855, [Accepted(1)]) == [StartRelay(1)]
  {
    if AcceptFailed in secure && plainAt <= |plain| {
      EmitPrefix(Plain8855, plain, plainAt);
    }
    assert AcceptFailed in [AcceptFailed];
    assert [Accepted(1)][..0] == [];
    assert Emit(Plain8855, [Accepted(1)][1..]) == [];
  }

  /** As intended, a failed accept on either port ends only its own loop: the process goes on, and each loop does all it would do alone. */
  lemma AcceptErrorEndsOnlyItsLoop(plain: seq<AcceptOutcome>, secure: seq<AcceptOutcome>, plainAt: nat)
    ensures !RunNodeA(Intended, plain, secure, plainAt).crashed
    ensures RunNodeA(Intended, plain, secure, plainAt).plainEvents == Emit(Plain8855, plain)
    ensures RunNodeA(Intended, plain, secure, plainAt).secureEvents == Emit(Secure8854, secure)
  {
  }
}
