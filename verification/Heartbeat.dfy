/** The heartbeat over whole traces of interval ticks and pongs (sections 5.5.2 and 5.5.3 of RFC 6455). */
module Heartbeat {
  import opened SocketConnection

  datatype Beat = Pong | Tick

  datatype Pulse = Pulse(isAlive: bool, closed: bool)

  function After(p: Pulse, beat: Beat): Pulse {
    match beat
    case Pong => p.(isAlive := true)
    case Tick => Pulse(false, p.closed || !p.isAlive)
  }

  /** One beat carried out on the connection object. */
  method Perform(connection: SocketConnection, beat: Beat)
    requires connection.Valid()
    modifies connection, connection.dwn
    ensures connection.Valid()
    ensures Pulse(connection.isAlive, connection.closed)
            == After(old(Pulse(connection.isAlive, connection.closed)), beat)
  {
    match beat {
      case Pong => connection.Pong();
      case Tick => connection.HeartbeatTick();
    }
  }

  function Listen(beats: seq<Beat>): Pulse {
    if beats == [] then Pulse(true, false) else After(Listen(beats[..|beats| - 1]), beats[|beats| - 1])
  }

  ghost predicate PongBetween(beats: seq<Beat>, i: int, j: int) {
    exists k :: i < k < j && 0 <= k < |beats| && beats[k] == Pong
  }

  ghost predicate Answered(beats: seq<Beat>) {
    forall i, j :: 0 <= i < j < |beats| && beats[i] == beats[j] == Tick ==> PongBetween(beats, i, j)
  }

  lemma {:induction false} AliveSinceTick(beats: seq<Beat>)
    ensures Listen(beats).isAlive
       <==> forall i :: 0 <= i < |beats| && beats[i] == Tick ==> PongBetween(beats, i, |beats|)
  {
    if beats != [] {
      var n := |beats| - 1;
      AliveSinceTick(beats[..n]);
      if beats[n] == Pong {
        assert forall i :: 0 <= i < n ==> PongBetween(beats, i, |beats|);
      } else {
        assert !PongBetween(beats, n, |beats|);
      }
    }
  }

  /** A connection survives exactly when a pong lies between any two ticks. */
  lemma {:induction false} SurvivesIffAnswered(beats: seq<Beat>)
    ensures !Listen(beats).closed <==> Answered(beats)
  {
    if beats != [] {
      var n := |beats| - 1;
      var before := beats[..n];
      SurvivesIffAnswered(before);
      AliveSinceTick(before);
      assert forall i, j :: 0 <= i < j <= n ==> (PongBetween(beats, i, j) <==> PongBetween(before, i, j)) by {
        forall i, j | 0 <= i < j <= n ensures PongBetween(beats, i, j) <==> PongBetween(before, i, j) {
          if k :| i < k < j && 0 <= k < |beats| && beats[k] == Pong { assert before[k] == Pong; }
          if k :| i < k < j && 0 <= k < |before| && before[k] == Pong { assert beats[k] == Pong; }
        }
      }
      if Answered(beats) {
        assert forall i :: 0 <= i < n ==> before[i] == beats[i];
      } else if Answered(before)
          && (beats[n] == Tick ==> forall i :: 0 <= i < n && before[i] == Tick ==> PongBetween(before, i, n)) {
        forall i, j | 0 <= i < j < |beats| && beats[i] == beats[j] == Tick ensures PongBetween(beats, i, j) {
          assert before[i] == Tick;
          assert j < n ==> before[j] == Tick;
        }
      }
    }
  }
}
