/** The packet reader of BackendClient.java, against the same wire format as the Rust framer. */
module JavaFraming {
  import opened Prelude
  import opened Framing

  /**
   * What one call of `InputStream.read` brings; a timeout may find the JVM on its way down, or the wrapper silent for too
   * long, and then the loop gives up.
   */
  datatype InputEvent = Arrived(byte: Byte) | TimedOut(givesUp: bool) | Closed

  datatype JavaRead = PacketRead(packet: Packet) | ReadTimeout | EndOfStream | PayloadTooLong | Blocked

  /** The bytes among some input events. */
  function Bytes(events: seq<InputEvent>): seq<Byte> {
    if events == [] then []
    else
      var last := events[|events| - 1];
      Bytes(events[..|events| - 1]) + if last.Arrived? then [last.byte] else []
  }

  lemma BytesWithLast(events: seq<InputEvent>, n: nat)
    requires n < |events|
    ensures Bytes(events[..n + 1]) ==
            if events[n].Arrived? then Bytes(events[..n]) + [events[n].byte] else Bytes(events[..n])
  {
    assert events[..n + 1][..n] == events[..n];
  }

  lemma BeginningIsValid(stream: seq<Byte>, r: Reading)
    requires Reads(stream, r)
    ensures ValidReading(r)
  {
  }

  class PacketReader {
    const input: seq<InputEvent>
    var position: nat
    /** The type byte of the begun packet, or a negative number. */
    var pendingCode: int
    var pendingMessage: seq<Byte>
    ghost var returned: seq<Packet>

    ghost predicate InRange()
      reads this
    {
      position <= |input| && pendingCode < 0x100
    }

    function Received(): seq<Byte>
      reads this
      requires position <= |input|
    {
      Bytes(input[..position])
    }

    ghost function Current(): Reading
      reads this
      requires InRange()
    {
      Reading(returned, if pendingCode < 0 then None else Some(pendingCode as Byte), pendingMessage)
    }

    /** The packets returned and the packet begun account for every byte received so far. */
    ghost predicate Valid()
      reads this
    {
      InRange() && Reads(Received(), Current())
    }

    constructor (input: seq<InputEvent>)
      ensures Valid() && this.input == input && position == 0 && returned == []
    {
      this.input, position := input, 0;
      pendingCode, pendingMessage, returned := -1, [], [];
    }

    /** A timeout in the middle of a packet leaves the packet to be completed by a later call. */
    method ReadPacket() returns (r: JavaRead)
      requires Valid()
      modifies this
      ensures InRange() && position >= old(position) && (r.Blocked? || position > old(position))
      ensures forall i :: old(position) <= i < position && !input[i].Arrived? ==> i == position - 1
      ensures r.ReadTimeout? <==> position > old(position) && input[position - 1].TimedOut?
      ensures r.EndOfStream? <==> position > old(position) && input[position - 1].Closed?
      ensures r.PacketRead? ==> Valid() && returned == old(returned) + [r.packet]
      ensures r.ReadTimeout? ==> Valid() && returned == old(returned)
      ensures r.EndOfStream? ==> Valid() && returned == old(returned)
      ensures r.Blocked? ==> Valid() && returned == old(returned) && position == |input|
      ensures r.PayloadTooLong? ==>
                returned == old(returned) && Received() != [] && RejectsAt(Received(), |Received()| - 1, Current())
    {
      hide Frames, Begun, Reads, Bytes;
      while position < |input|
        invariant Valid() && returned == old(returned) && position >= old(position)
        invariant forall i :: old(position) <= i < position ==> input[i].Arrived?
        decreases |input| - position
      {
        var event := input[position];
        ghost var before := Current();
        ghost var received := Received();
        BytesWithLast(input, position);
        BeginningIsValid(received, before);
        position := position + 1;
        match event {
          case TimedOut(_) => return ReadTimeout;
          case Closed => return EndOfStream;
          case Arrived(value) =>
            assert Received() == received + [value];
            if pendingCode < 0 {
              pendingCode := value as int;
              ByteReads(received, before, value, Current());
              continue;
            }
            if value == 0 {
              var packet := Packet(pendingCode as Byte, pendingMessage);
              NulEndsPacket(received, before);
              pendingCode := -1;
              pendingMessage := [];
              returned := returned + [packet];
              return PacketRead(packet);
            }
            if |pendingMessage| >= MAX_PACKET_SIZE {
              assert Received()[..|received|] == received;
              return PayloadTooLong;
            }
            pendingMessage := pendingMessage + [value];
            ByteReads(received, before, value, Current());
        }
      }
      return Blocked;
    }

    /**
     * The read loop of the control thread, packet after packet, riding out read timeouts. It leaves off at a stop or
     * a refused key, when answering or handling a packet fails (here the one with the number `failing`), or when a
     * timeout makes it give up.
     */
    method ReadUntilClosed(failing: nat) returns (packets: seq<Packet>, end: LoopEnd)
      requires Valid() && position == 0 && returned == []
      modifies this
      ensures InRange() && packets == returned == Current().packets
      ensures end.Rejected? ==> Received() != []
      ensures Decodes(Received(), if end.Rejected? then Verdict.Rejected(|Received()| - 1, Current())
                                  else WholeStream(Current()))
      ensures forall i :: 0 <= i < |packets| - 1 ==> packets[i].code != 101 && packets[i].code != 111
      ensures end == HandledLast <==> packets != [] && packets[|packets| - 1].code in {101, 111}
      ensures |packets| <= failing + 1
      ensures end == HandlingFailed <==> |packets| == failing + 1 && packets[failing].code !in {101, 111}
      ensures end == GivenUp <==> TimedOut(true) in input[..position]
      ensures end == StreamEnded ==> Closed in input[..position] || position == |input|
      ensures Closed in input[..position] ==> end == StreamEnded
    {
      packets := [];
      while true
        invariant Valid() && packets == returned
        invariant forall i :: 0 <= i < |packets| ==> !EndsTheLoop(packets[i])
        invariant |packets| <= failing && TimedOut(true) !in input[..position] && Closed !in input[..position]
        decreases |input| - position
      {
        ghost var before := position;
        var read := ReadPacket();
        assert input[..position] == input[..before] + input[before..position];
        match read {
          case PacketRead(packet) =>
            packets := packets + [packet];
            if EndsTheLoop(packet) {
              return packets, HandledLast;
            }
            if |packets| == failing + 1 {
              return packets, HandlingFailed;
            }
          case ReadTimeout =>
            if input[position - 1].givesUp {
              return packets, GivenUp;
            }
          case PayloadTooLong => return packets, LoopEnd.Rejected;
          case _ => return packets, StreamEnded;
        }
      }
    }
  }

  datatype LoopEnd = StreamEnded | Rejected | HandledLast | HandlingFailed | GivenUp

  /** A stop raises the flag that ends the loop, and a refused key fails it. */
  predicate EndsTheLoop(packet: Packet) {
    packet.code == STOP || packet.code == BAD_KEY
  }

  // ----- sending

  /** The frame of any payload that is short enough goes out whole, a NUL in it or not, unless there is no connection. */
  method Send(packet: Packet, connected: bool, wire: seq<Byte>, room: nat) returns (r: SendResult, written: seq<Byte>)
    ensures r.NotSendable? <==> !connected || |packet.message| > 1048576
    ensures r.NotSendable? ==> written == wire
    ensures r.Sent? ==> |packet.message| + 2 <= room && written == wire + ([packet.code] + packet.message + [0])
    ensures r.WriteFailed? ==>
              room < |packet.message| + 2 && written == wire + ([packet.code] + packet.message + [0])[..room]
    ensures !r.NotSendable? ==> exists s: Reading :: Reads(Frame(packet), s)
  {
    if !connected {
      return NotSendable, wire;
    }
    if |packet.message| > MAX_PACKET_SIZE {
      return NotSendable, wire;
    }
    JavaPacketIsReadBackIff(packet);
    r, written := PutOnWire([packet.code] + packet.message + [0], wire, room);
  }
}
