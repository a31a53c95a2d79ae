/** `src/parser.rs`: the prototype session that only tracks its state flow.
    The WebSocket the session owns is not part of this model; a message is
    its payload bytes. */
module Parser {
  import opened Wire

  datatype ClientServerStateFlow = NewBorn | Connected | ReceivedProcesses | TargetPID | Unknown

  /** Tag (1 byte), address (8 bytes), size (1 byte). */
  const MIN_PACKET_LEN: nat := 1 + 8 + 1

  /** `valid_packet`: long enough to hold the smallest request. */
  predicate ValidPacket(msg: seq<byte>)
    ensures ValidPacket(msg) <==> |msg| >= 10
    ensures ValidPacket(msg) ==> |msg| > 0
  {
    |msg| >= MIN_PACKET_LEN
  }

  /** The three lengths the source's test exercises. */
  lemma ValidPacketExamples(nine: seq<byte>, ten: seq<byte>, hundred: seq<byte>)
    requires |nine| == 9 && |ten| == 10 && |hundred| == 100
    ensures !ValidPacket(nine) && ValidPacket(ten) && ValidPacket(hundred)
  {
  }

  /** The state after `message_handler`: only a valid message whose first
      byte is 2 moves to TargetPID; bytes 0, 1 and any other byte only log. */
  function NextState(state: ClientServerStateFlow, msg: seq<byte>): ClientServerStateFlow
  {
    if !ValidPacket(msg) then state
    else if msg[0] == 2 then TargetPID
    else state
  }

  /** The state changes only on a valid TargetPID message, and that message
      always lands in TargetPID. */
  lemma NextStateChangesOnlyOnTargetPid(state: ClientServerStateFlow, msg: seq<byte>)
    ensures NextState(state, msg) != state ==> ValidPacket(msg) && msg[0] == 2
    ensures ValidPacket(msg) && msg[0] == 2 ==> NextState(state, msg) == TargetPID
    ensures !ValidPacket(msg) ==> NextState(state, msg) == state
  {
  }

  class ClientSession {
    var targetPid: i32
    var state: ClientServerStateFlow

    /** `ClientSession::new`: no target yet. */
    constructor ()
      ensures targetPid == -1 && state == NewBorn
    {
      targetPid := -1;
      state := NewBorn;
    }

    /** `message_handler`: updates `state` in place; `target_pid` is never touched. */
    method MessageHandler(msg: seq<byte>)
      modifies this
      ensures targetPid == old(targetPid)
      ensures state == NextState(old(state), msg)
    {
      if !ValidPacket(msg) {
        return;
      }
      match msg[0]
      case 0 =>
      case 1 =>
      case 2 => state := TargetPID;
      case _ =>
    }
  }
}
