/**
 * A server's connection to a peer server (server/network/p2p_connection.py):
 * a heartbeat counter that starts at 10000 and dispatch on the type of each
 * message received. `hb` raises the heartbeat by 1000, `bc` puts the
 * broadcast command on the server's request queue, `init` and unknown types
 * change nothing.
 */
module P2P {
  import opened Wrappers
  import opened Queues
  import opened ClientGame

  const INITIAL_HEARTBEAT: int := 10000
  const HEARTBEAT_BONUS: int := 1000

  /**
   * A decoded peer message: its `type` field and, for a broadcast, the
   * command it carries (already decoded).
   */
  datatype PeerMessage = PeerMessage(msgType: string, command: Option<ClientCommand>)

  /** A broadcast must carry a command (the source fails with a KeyError otherwise). */
  predicate WellFormed(m: PeerMessage) {
    m.msgType == "bc" ==> m.command.Some?
  }

  predicate AllWellFormed(msgs: seq<PeerMessage>) {
    forall k :: 0 <= k < |msgs| ==> WellFormed(msgs[k])
  }

  /** What `on_message` can change: the heartbeat and the server's request queue. */
  datatype PeerState = PeerState(heartbeat: int, requests: seq<ClientCommand>)

  /** The effect of one message on the state. */
  function Step(s: PeerState, m: PeerMessage): (r: PeerState)
    requires WellFormed(m)
    ensures s.heartbeat <= r.heartbeat
    ensures |s.requests| <= |r.requests| <= |s.requests| + 1 && r.requests[..|s.requests|] == s.requests
  {
    if m.msgType == "hb" then s.(heartbeat := s.heartbeat + HEARTBEAT_BONUS)
    else if m.msgType == "bc" then s.(requests := s.requests + [m.command.value])
    else s  // "init" and any other type
  }

  /** The effect of a sequence of messages, received in order. */
  function Run(s: PeerState, msgs: seq<PeerMessage>): PeerState
    requires AllWellFormed(msgs)
  {
    if msgs == [] then s else Step(Run(s, msgs[..|msgs| - 1]), msgs[|msgs| - 1])
  }

  /** The number of heartbeat messages in `msgs`. */
  function HeartbeatCount(msgs: seq<PeerMessage>): nat {
    if msgs == [] then 0
    else HeartbeatCount(msgs[..|msgs| - 1]) + (if msgs[|msgs| - 1].msgType == "hb" then 1 else 0)
  }

  /** The commands carried by the broadcasts in `msgs`, in order. */
  function Broadcasts(msgs: seq<PeerMessage>): seq<ClientCommand>
    requires AllWellFormed(msgs)
  {
    if msgs == [] then []
    else
      Broadcasts(msgs[..|msgs| - 1])
      + (if msgs[|msgs| - 1].msgType == "bc" then [msgs[|msgs| - 1].command.value] else [])
  }

  /**
   * Over any sequence of messages the heartbeat grows by exactly 1000 per
   * heartbeat message, and the request queue grows by exactly the
   * broadcast commands, in the order they arrived.
   */
  lemma {:induction false} RunEffect(s: PeerState, msgs: seq<PeerMessage>)
    requires AllWellFormed(msgs)
    ensures Run(s, msgs).heartbeat == s.heartbeat + HEARTBEAT_BONUS * HeartbeatCount(msgs)
    ensures Run(s, msgs).requests == s.requests + Broadcasts(msgs)
  {
    if msgs != [] {
      RunEffect(s, msgs[..|msgs| - 1]);
    }
  }

  /** From a new connection, the heartbeat is 10000 plus 1000 per heartbeat message, so it never decreases. */
  lemma HeartbeatFromStart(requests: seq<ClientCommand>, msgs: seq<PeerMessage>)
    requires AllWellFormed(msgs)
    ensures Run(PeerState(INITIAL_HEARTBEAT, requests), msgs).heartbeat == 10000 + 1000 * HeartbeatCount(msgs)
    ensures forall n :: 0 <= n <= |msgs| ==>
              Run(PeerState(INITIAL_HEARTBEAT, requests), msgs[..n]).heartbeat
              <= Run(PeerState(INITIAL_HEARTBEAT, requests), msgs).heartbeat
  {
    RunEffect(PeerState(INITIAL_HEARTBEAT, requests), msgs);
    forall n | 0 <= n <= |msgs|
      ensures Run(PeerState(INITIAL_HEARTBEAT, requests), msgs[..n]).heartbeat
              <= Run(PeerState(INITIAL_HEARTBEAT, requests), msgs).heartbeat
    {
      RunEffect(PeerState(INITIAL_HEARTBEAT, requests), msgs[..n]);
      HeartbeatCountPrefix(msgs, n);
    }
  }

  /** A prefix holds no more heartbeat messages than the whole sequence. */
  lemma {:induction false} HeartbeatCountPrefix(msgs: seq<PeerMessage>, n: nat)
    requires n <= |msgs|
    ensures HeartbeatCount(msgs[..n]) <= HeartbeatCount(msgs)
    decreases |msgs|
  {
    if n < |msgs| {
      HeartbeatCountPrefix(msgs[..|msgs| - 1], n);
      assert msgs[..|msgs| - 1][..n] == msgs[..n];
    } else {
      assert msgs[..n] == msgs;
    }
  }

  /** The server side a peer connection talks to: its request queue. */
  class Server {
    const requestQueue: Queue<ClientCommand>

    constructor ()
      ensures fresh(requestQueue) && requestQueue.items == []
    {
      requestQueue := new Queue<ClientCommand>();
    }
  }

  class P2PConnection {
    const server: Server
    var heartbeat: int

    /** The part of the state that `on_message` reads and changes. */
    ghost function State(): PeerState
      reads this, server, server.requestQueue
    {
      PeerState(heartbeat, server.requestQueue.items)
    }

    /** A new connection to a peer starts with a heartbeat of 10000. */
    constructor (server: Server)
      ensures this.server == server && heartbeat == 10000
    {
      this.server := server;
      heartbeat := INITIAL_HEARTBEAT;
    }

    /**
     * `on_message(data)`: dispatch on the message type. A heartbeat adds
     * exactly 1000 and leaves the queue alone; a broadcast appends exactly its
     * command to the back of the request queue and leaves the heartbeat
     * alone; `init` and unknown types change nothing.
     */
    method OnMessage(m: PeerMessage)
      requires WellFormed(m)
      modifies this, server.requestQueue
      ensures State() == Step(old(State()), m)
      ensures m.msgType == "hb" ==>
                heartbeat == old(heartbeat) + 1000 && server.requestQueue.items == old(server.requestQueue.items)
      ensures m.msgType == "bc" ==>
                heartbeat == old(heartbeat) && server.requestQueue.items == old(server.requestQueue.items) + [m.command.value]
      ensures m.msgType != "hb" && m.msgType != "bc" ==>
                heartbeat == old(heartbeat) && server.requestQueue.items == old(server.requestQueue.items)
    {
      if m.msgType == "hb" {
        heartbeat := heartbeat + HEARTBEAT_BONUS;
      } else if m.msgType == "bc" {
        server.requestQueue.Put(m.command.value);
      } else if m.msgType == "init" {
      } else {
        // an unrecognised type is only logged
      }
    }
  }
}
