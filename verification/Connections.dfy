/** An authenticated connection, src/protocol.rs: the reader thread, its bounded channel and the supervisor's end. */
module Connections {
  import opened Prelude
  import opened Framing
  import opened Handshake

  lemma EventsConcat(a: seq<Packet>, b: seq<Packet>)
    ensures Events(a + b) == Events(a) + Events(b)
  {
  }

  lemma OneMoreConsumed(consumed: seq<ReceiveEvent>, queue: seq<ReceiveEvent>, backlog: seq<ReceiveEvent>)
    requires queue != []
    ensures consumed + [queue[0]] + queue[1..] + backlog == consumed + queue + backlog
  {
    Assoc(consumed, [queue[0]], queue[1..]);
    assert [queue[0]] + queue[1..] == queue;
  }

  class Connection {
    /** Everything the peer will ever send, and the key packet it began with. */
    const incoming: seq<Byte>
    const key: Packet
    const framer: Framer
    var taken: nat
    /** Decoded events that the reader thread has yet to push into the channel. */
    var backlog: seq<ReceiveEvent>
    var queue: seq<ReceiveEvent>
    var reading: bool
    /** The reader thread stopped because the stream ended. */
    var ended: bool
    /** The supervisor has dropped its end, and nobody receives any more. */
    var abandoned: bool
    /** Events the supervisor has received, packets decoded after the key, and what they were decoded from. */
    ghost var consumed: seq<ReceiveEvent>
    ghost var decoded: seq<Packet>
    ghost var cut: nat
    ghost var progress: Reading

    /** All there is to receive once the packets decoded so far have been. */
    ghost function Decoded(): seq<ReceiveEvent>
      reads this
    {
      Events(decoded) + if reading then [] else [Disconnected]
    }

    /** Received, queued and held-back events are together exactly the packets decoded so far, if anybody receives. */
    ghost predicate Valid()
      reads this, framer
    {
      && taken <= |incoming| && cut <= |incoming| && |queue| <= EVENT_QUEUE_CAPACITY
      && Reads(incoming[..cut], progress) && progress.packets == [key] + decoded
      && (reading ==> cut == taken && progress == framer.After([key] + decoded))
      && (ended ==> !reading && cut == |incoming|)
      && (if abandoned then consumed <= Decoded() else consumed + queue + backlog == Decoded())
    }

    /** Takes over a half-filled framer; `queue` starts with the packets that came in the same read as the key. */
    constructor (handshake: PendingHandshake, expectedKey: seq<Byte>, queue: seq<ReceiveEvent>, ghost initial: seq<Packet>)
      requires handshake.Admitted(expectedKey, initial)
      requires queue == Events(initial) && |queue| <= EVENT_QUEUE_CAPACITY
      ensures Valid() && reading && !abandoned && consumed == [] && this.queue == queue
      ensures incoming == handshake.incoming && key == Packet(KEY, expectedKey) && framer == handshake.framer
    {
      incoming, key, framer := handshake.incoming, Packet(KEY, expectedKey), handshake.framer;
      taken, backlog := handshake.taken, [];
      this.queue := queue;
      reading, ended, abandoned := true, false, false;
      consumed, decoded, cut := [], initial, handshake.taken;
      progress := handshake.framer.After([Packet(KEY, expectedKey)] + initial);
    }

    /**
     * Reader thread, with nothing held back: one read, whatever it brings. Where nothing is ready, nothing changes; the
     * thread stops at the end of the stream, on an error, and at a payload that is too long; otherwise it holds back the
     * packets that the bytes complete.
     */
    method ReaderReads(network: Network)
      requires Valid() && reading && backlog == []
      modifies this, framer
      ensures Valid() && consumed == old(consumed) && queue == old(queue) && abandoned == old(abandoned)
      ensures taken == Reached(incoming, old(taken), 8192, network)
      ensures reading <==>
              network.Quiet? || (network.Ready? && old(taken) < |incoming| && exists r :: Reads(incoming[..taken], r))
      ensures ended <==> network.Ready? && old(taken) == |incoming|
      ensures old(decoded) <= decoded
      ensures backlog == if reading then Events(decoded[|old(decoded)|..]) else [Disconnected]
      ensures !reading ==> decoded == old(decoded)
    {
      assert Events([]) == [];
      hide Frames, Begun, Events, Reached;
      ghost var stream := incoming[..taken];
      assert consumed + queue + [] == consumed + queue;
      assert decoded[|decoded|..] == [];
      assert Reads(stream, progress);
      var read;
      read, taken := ReadSocket(incoming, taken, READER_BUFFER, network);
      match read {
        case NotReady =>
        case AtEnd =>
          Stop(true);
        case Broken =>
          Stop(false);
        case Data(bytes) =>
          var fed := framer.Feed(bytes);
          if fed.TooLarge? {
            RejectedChunk(stream, progress, bytes, framer);
            Stop(false);
          } else {
            Accept(stream, bytes, fed.packets);
          }
      }
    }

    method Stop(atEnd: bool)
      requires taken <= |incoming| && cut <= |incoming| && |queue| <= EVENT_QUEUE_CAPACITY
      requires Reads(incoming[..cut], progress) && progress.packets == [key] + decoded
      requires !ended && (atEnd ==> cut == |incoming|) && backlog == []
      requires if abandoned then consumed <= Events(decoded) + [Disconnected] else consumed + queue == Events(decoded)
      modifies this
      ensures Valid() && consumed == old(consumed) && queue == old(queue) && taken == old(taken)
      ensures abandoned == old(abandoned) && decoded == old(decoded)
      ensures !reading && ended == atEnd && backlog == [Disconnected]
    {
      reading, ended, backlog := false, atEnd, [Disconnected];
    }

    method Accept(ghost stream: seq<Byte>, ghost bytes: seq<Byte>, packets: seq<Packet>)
      requires taken <= |incoming| && |queue| <= EVENT_QUEUE_CAPACITY && reading && !ended && backlog == []
      requires Reads(stream, progress) && progress.packets == [key] + decoded && incoming[..taken] == stream + bytes
      requires Advances(Reading([], progress.code, progress.partial), bytes, packets, framer.After(packets))
      requires if abandoned then consumed <= Events(decoded) else consumed + queue == Events(decoded)
      modifies this
      ensures Valid() && consumed == old(consumed) && queue == old(queue) && abandoned == old(abandoned)
      ensures reading && !ended && taken == old(taken) && Reads(incoming[..taken], progress)
      ensures decoded == old(decoded) + packets && backlog == Events(packets)
    {
      hide Frames, Events;
      Assoc([key], decoded, packets);
      AdvancesReads(stream, progress, bytes, packets, framer.After(progress.packets + packets));
      EventsConcat(decoded, packets);
      backlog := Events(packets);
      decoded := decoded + packets;
      cut := taken;
      progress := framer.After([key] + decoded);
      assert consumed + queue + backlog + [] == consumed + queue + backlog;
    }

    /**
     * Reader thread: the blocking send succeeds as soon as the channel has room, and fails when nobody receives any
     * more; then the thread ends without a word.
     */
    method ReaderSends()
      requires Valid() && backlog != [] && (abandoned || |queue| < EVENT_QUEUE_CAPACITY)
      modifies this
      ensures Valid() && consumed == old(consumed) && abandoned == old(abandoned)
      ensures !abandoned ==> queue == old(queue) + [old(backlog)[0]] && backlog == old(backlog)[1..]
      ensures abandoned ==> queue == old(queue) && !reading && backlog == []
    {
      hide Events, Reads;
      if abandoned {
        assert consumed <= Events(decoded) + [Disconnected];
        reading, backlog := false, [];
        return;
      }
      Assoc(queue, [backlog[0]], backlog[1..]);
      assert [backlog[0]] + backlog[1..] == backlog;
      Assoc(consumed, queue, backlog);
      Assoc(consumed, queue + [backlog[0]], backlog[1..]);
      queue, backlog := queue + [backlog[0]], backlog[1..];
    }

    /** The supervisor drops the connection. */
    method Abandon()
      requires Valid()
      modifies this`abandoned
      ensures Valid() && abandoned
    {
      hide Events, Reads;
      assert consumed <= consumed + queue + backlog;
      abandoned := true;
    }

    /** The supervisor takes the next event out of the channel. */
    method Receive() returns (event: ReceiveEvent)
      requires Valid() && queue != [] && !abandoned
      modifies this
      ensures Valid() && !abandoned && event == old(queue)[0]
      ensures consumed == old(consumed) + [event] && queue == old(queue)[1..]
    {
      hide Events, Reads;
      event := queue[0];
      OneMoreConsumed(consumed, queue, backlog);
      queue := queue[1..];
      consumed := consumed + [event];
    }
  }

  /**
   * However the stream was cut between the handshake reads and the reader thread, the supervisor receives the
   * packets after the key in order, none lost and none repeated, and all of them once it sees the stream end.
   */
  lemma DeliveredIsTheStream(connection: Connection, whole: Reading)
    requires connection.Valid() && Reads(connection.incoming, whole)
    ensures whole.packets != [] && whole.packets[0] == connection.key
    ensures var rest := whole.packets[1..];
            exists k :: 0 <= k <= |rest| && connection.consumed <= Events(rest[..k]) + [Disconnected]
    ensures connection.ended && Disconnected in connection.consumed ==>
              connection.consumed == Events(whole.packets[1..]) + [Disconnected]
  {
    hide Reads;
    var incoming, cut := connection.incoming, connection.cut;
    assert incoming[..cut] + incoming[cut..] == incoming;
    ReadingGrows(incoming[..cut], incoming[cut..], connection.progress, whole);
    var rest := whole.packets[1..];
    var k := |connection.decoded|;
    assert connection.progress.packets[1..] == connection.decoded;
    assert rest[..k] == connection.decoded;
    var all := connection.Decoded();
    assert connection.consumed <= connection.consumed + connection.queue + connection.backlog;
    assert connection.consumed <= all;
    assert connection.consumed <= Events(rest[..k]) + [Disconnected];
    if connection.ended && Disconnected in connection.consumed {
      assert incoming[..cut] == incoming;
      ReadingIsUnique(incoming, connection.progress, whole);
      var at :| 0 <= at < |connection.consumed| && connection.consumed[at] == Disconnected;
      assert all[at] == Disconnected;
      assert at == k;
    }
  }

  // ----- admission

  datatype SpawnResult = Spawned(connection: Connection) | QueueFull | SpawnFailed

  /** Queues the early packets one by one; more than the channel holds would be an error. The system may refuse. */
  method Spawn(handshake: PendingHandshake, expectedKey: seq<Byte>, initial: seq<Packet>, refused: bool)
    returns (r: SpawnResult)
    requires handshake.Admitted(expectedKey, initial)
    ensures !r.QueueFull? && (r.SpawnFailed? <==> refused)
    ensures r.Spawned? ==>
              && fresh(r.connection) && r.connection.Valid() && r.connection.consumed == []
              && r.connection.queue == Events(initial)
              && r.connection.incoming == handshake.incoming && r.connection.key == Packet(KEY, expectedKey)
  {
    if refused {
      return SpawnFailed;
    }
    var queue: seq<ReceiveEvent> := [];
    for i := 0 to |initial|
      invariant queue == Events(initial[..i])
    {
      if |queue| >= EVENT_QUEUE_CAPACITY {
        return QueueFull;
      }
      queue := queue + [ReceiveEvent.Arrived(initial[i])];
    }
    assert initial[..|initial|] == initial;
    var connection := new Connection(handshake, expectedKey, queue, initial);
    return Spawned(connection);
  }

  lemma OldOrAdded(before: seq<PendingHandshake>, pending: seq<PendingHandshake>)
    requires before <= pending
    ensures forall h :: h in pending ==> h in before || h in pending[|before|..]
    ensures forall f :: f in Framers(pending) ==> f in Framers(before) || f in Framers(pending[|before|..])
  {
    assert pending == before + pending[|before|..];
  }

  /**
   * One poll of the listener: at most one connection is handed out, and only behind the expected key. It fails if the
   * listening socket does, or the system refuses the thread; otherwise a socket whose key has arrived is not left over.
   */
  method PollAuthentication(listener: BackendListener, accepts: seq<Accept>, expectedKey: seq<Byte>,
                            timeout: nat, acceptTime: int, now: int, network: PendingHandshake -> Network, refused: bool)
    returns (r: Option<SpawnResult>)
    requires listener.Valid()
    modifies listener, listener.pending, Framers(listener.pending)
    ensures listener.Valid()
    ensures AcceptFailed in accepts ==> r == Some(SpawnFailed)
    ensures r == Some(SpawnFailed) ==> AcceptFailed in accepts || refused
    ensures r.None? ==>
              forall h :: h in old(listener.pending) ==>
                && (h in listener.pending <==> !old(h.ShouldDrop(expectedKey, now, network(h))))
                && !old(h.ShouldAdmit(expectedKey, now, network(h)))
    ensures r.Some? ==> !r.value.QueueFull?
    ensures r.Some? && r.value.Spawned? ==>
              && fresh(r.value.connection) && r.value.connection.Valid()
              && r.value.connection.key == Packet(KEY, expectedKey) && r.value.connection.consumed == []
  {
    hide Connection.Valid, PendingHandshake.Admitted, PendingHandshake.Valid, Distinct;
    hide PendingHandshake.ShouldDrop, PendingHandshake.ShouldAdmit, Welcome, Streams;
    var accepted := listener.AcceptAll(accepts, acceptTime + timeout);
    if accepted.Refused? {
      return Some(SpawnFailed);
    }
    OldOrAdded(old(listener.pending), listener.pending);
    ghost var added := listener.pending[|old(listener.pending)|..];
    assert forall h :: h in added ==> fresh(h) && fresh(h.framer);
    assert forall h :: h in listener.pending ==> h in old(listener.pending) || fresh(h);
    assert forall i :: 0 <= i < |listener.pending| ==>
        listener.pending[i] in old(listener.pending) || fresh(listener.pending[i]);
    assert forall f :: f in Framers(added) ==> fresh(f);
    assert forall f :: f in Framers(listener.pending) ==> f in old(Framers(listener.pending)) || fresh(f);
    var polled := listener.AdvanceAll(expectedKey, now, network);
    if polled.NobodyYet? {
      return None;
    }
    hide *;
    var spawned := Spawn(polled.handshake, expectedKey, polled.initial, refused);
    return Some(spawned);
  }
}
