/** Connections of the control channel, src/protocol.rs: from accepted socket to packets in the supervisor's hands. */
module Handshake {
  import opened Prelude
  import opened Framing

  const MAX_PENDING_HANDSHAKES: nat := 8
  const EVENT_QUEUE_CAPACITY: nat := 256
  const HANDSHAKE_READ: nat := 512
  const READER_BUFFER: nat := 8192

  /** `Authentication failed.` */
  const REFUSAL_TEXT: seq<Byte> :=
    [65, 117, 116, 104, 101, 110, 116, 105, 99, 97, 116, 105, 111, 110, 32, 102, 97, 105, 108, 101, 100, 46]

  const REFUSAL := Packet(BAD_KEY, REFUSAL_TEXT)

  datatype ReceiveEvent = Arrived(packet: Packet) | Disconnected

  function Events(packets: seq<Packet>): seq<ReceiveEvent> {
    seq(|packets|, i requires 0 <= i < |packets| => Arrived(packets[i]))
  }

  // ----- how much one read can bring

  /** A read of `n` bytes that ends the first packet of a stream ends at most `(n - 1) / 2` more. */
  lemma FewPacketsPerRead(r: Reading, bytes: seq<Byte>, completed: seq<Packet>, s: Reading)
    requires ValidReading(r) && Advances(r, bytes, completed, s) && completed != []
    ensures 2 * (|completed| - 1) < |bytes|
  {
    var beyond := Frames(completed[1..]) + Begun(s);
    var whole := Begun(r) + bytes;
    assert whole == Frame(completed[0]) + beyond;
    var at := |completed[0].message| + 1;
    assert whole[at] == 0;
    assert forall i :: 1 <= i < |Begun(r)| ==> whole[i] == r.partial[i - 1];
    assert at >= |Begun(r)|;
    FramesLength(completed[1..]);
  }

  // ----- a socket being authenticated

  /** What a read of a socket brings: bytes, the end of the stream, nothing yet, or an error. */
  datatype SocketRead = Data(bytes: seq<Byte>) | AtEnd | NotReady | Broken

  /**
   * What the network has for one read of a socket: up to `count` bytes of the stream, or its end; nothing yet; or an
   * error. There is room for so many bytes in the other direction.
   */
  datatype Network = Ready(count: nat, room: nat) | Quiet | Down

  /** How far a stream has been read after one more read of at most `limit` bytes: TCP cuts it anywhere. */
  function Reached(incoming: seq<Byte>, taken: nat, limit: nat, network: Network): (next: nat)
    ensures taken <= |incoming| && limit > 0 ==> taken <= next <= |incoming|
    ensures taken < |incoming| && limit > 0 && network.Ready? ==> taken < next <= taken + limit
    ensures !network.Ready? ==> next == taken
  {
    if network.Ready? then Min(taken + Min(Max(network.count, 1), limit), |incoming|) else taken
  }

  /** One read of a socket whose peer sends `incoming`, of which `taken` bytes were read before. */
  method ReadSocket(incoming: seq<Byte>, taken: nat, limit: nat, network: Network) returns (r: SocketRead, next: nat)
    requires taken <= |incoming| && limit > 0
    ensures next == Reached(incoming, taken, limit, network)
    ensures match network
            case Down => r == Broken
            case Quiet => r == NotReady
            case Ready(_, _) =>
              if taken == |incoming| then r == AtEnd
              else r.Data? && 0 < |r.bytes| <= limit && incoming[..next] == incoming[..taken] + r.bytes
  {
    next := Reached(incoming, taken, limit, network);
    match network {
      case Down => r := Broken;
      case Quiet => r := NotReady;
      case Ready(_, _) => r := if taken == |incoming| then AtEnd else Data(incoming[taken..next]);
    }
  }

  datatype HandshakeStep = Keep | Drop | Authenticated(initial: seq<Packet>)

  class PendingHandshake {
    /** Everything the peer will ever send. */
    const incoming: seq<Byte>
    var taken: nat
    const framer: Framer
    const deadline: int
    ghost var dropped: bool
    /** What has been written to the peer. */
    var written: seq<Byte>

    /** Nothing but the beginning of one packet has been read. */
    ghost predicate Valid()
      reads this, framer
    {
      taken <= |incoming| && Reads(incoming[..taken], framer.After([]))
    }

    constructor (incoming: seq<Byte>, deadline: int)
      ensures Valid() && fresh(framer) && this.incoming == incoming && this.deadline == deadline
      ensures taken == 0 && !dropped && written == []
    {
      this.incoming, this.deadline, taken, written := incoming, deadline, 0, [];
      framer := new Framer();
      dropped := false;
    }

    /** The first `end` bytes hold a first packet, and it is another than the expected key. */
    ghost predicate BeginsWrongly(expectedKey: seq<Byte>, end: nat) {
      && end <= |incoming|
      && exists r: Reading :: Reads(incoming[..end], r) && r.packets != [] && r.packets[0] != Packet(110, expectedKey)
    }

    /** The first `end` bytes hold the expected key as their first packet. */
    ghost predicate BeginsWithKey(expectedKey: seq<Byte>, end: nat) {
      && end <= |incoming|
      && exists r: Reading :: Reads(incoming[..end], r) && r.packets != [] && r.packets[0] == Packet(110, expectedKey)
    }

    /** The first `end` bytes hold a payload that is too long. */
    ghost predicate IsRejected(end: nat) {
      end <= |incoming| && forall r :: !Reads(incoming[..end], r)
    }

    /** Who is dropped: the late, those whose stream has ended or whose socket is broken, and those with another key. */
    ghost predicate ShouldDrop(expectedKey: seq<Byte>, now: int, network: Network)
      reads this`taken
    {
      || now >= deadline || network.Down?
      || (network.Ready?
          && var end := Reached(incoming, taken, 512, network);
             taken == |incoming| || BeginsWrongly(expectedKey, end) || IsRejected(end))
    }

    /** Who is admitted: those whose next read completes the expected key, and brings nothing that is too long. */
    ghost predicate ShouldAdmit(expectedKey: seq<Byte>, now: int, network: Network)
      reads this`taken
    {
      && now < deadline && network.Ready? && taken < |incoming|
      && BeginsWithKey(expectedKey, Reached(incoming, taken, 512, network))
    }

    /**
     * Reads once. Success means that the stream so far is the expected key followed by at most 255 packets. A peer that
     * presents another first packet is refused before it is dropped, as far as it can be written to.
     */
    method Advance(expectedKey: seq<Byte>, now: int, network: Network) returns (step: HandshakeStep)
      requires Valid() && !dropped
      modifies this, framer
      ensures dropped <==> step.Drop?
      ensures step.Drop? <==> old(ShouldDrop(expectedKey, now, network))
      ensures step.Authenticated? <==> old(ShouldAdmit(expectedKey, now, network))
      ensures taken == if now < deadline then Reached(incoming, old(taken), 512, network) else old(taken)
      ensures step.Keep? ==> Valid()
      ensures step.Authenticated? ==> Admitted(expectedKey, step.initial)
      ensures written == if taken == old(taken) || !BeginsWrongly(expectedKey, taken) then old(written)
                         else old(written) + Prefix(Frame(REFUSAL), network.room)
    {
      hide Frame, Reads, Reached;
      NoPacketYet(expectedKey);
      dropped := true;
      if now >= deadline {
        return Drop;
      }
      var read;
      read, taken := ReadSocket(incoming, taken, HANDSHAKE_READ, network);
      match read {
        case NotReady => step := Keep;
        case AtEnd => step := Drop;
        case Broken => step := Drop;
        case Data(bytes) => step := Judge(bytes, expectedKey, old(taken), network.room);
      }
      dropped := step.Drop?;
    }

    lemma NoPacketYet(expectedKey: seq<Byte>)
      requires Valid()
      ensures !BeginsWrongly(expectedKey, taken) && !BeginsWithKey(expectedKey, taken) && !IsRejected(taken)
    {
      var now := framer.After([]);
      forall r: Reading | Reads(incoming[..taken], r)
        ensures r == now
      {
        ReadingIsUnique(incoming[..taken], r, now);
      }
    }

    /** The stream read so far is the expected key packet, then `initial`, then the packet that has begun. */
    ghost predicate Admitted(expectedKey: seq<Byte>, initial: seq<Packet>)
      reads this, framer
    {
      && taken <= |incoming| && |initial| <= 255
      && Reads(incoming[..taken], framer.After([Packet(KEY, expectedKey)] + initial))
    }

    method Judge(bytes: seq<Byte>, expectedKey: seq<Byte>, ghost before: nat, room: nat) returns (step: HandshakeStep)
      requires before <= taken <= |incoming| && |bytes| <= HANDSHAKE_READ
      requires Reads(incoming[..before], framer.After([])) && incoming[..taken] == incoming[..before] + bytes
      modifies framer, this`written
      ensures step.Drop? <==> BeginsWrongly(expectedKey, taken) || IsRejected(taken)
      ensures step.Authenticated? <==> BeginsWithKey(expectedKey, taken)
      ensures step.Keep? ==> Valid()
      ensures step.Authenticated? ==> Admitted(expectedKey, step.initial)
      ensures written == if BeginsWrongly(expectedKey, taken) then old(written) + Prefix(Frame(REFUSAL), room)
                         else old(written)
    {
      hide Frame, Frames, Begun;
      ghost var start := framer.After([]);
      var fed := framer.Feed(bytes);
      if fed.TooLarge? {
        RejectedChunk(incoming[..before], start, bytes, framer);
        return Drop;
      }
      ghost var reading := framer.After(fed.packets);
      AdvancesReads(incoming[..before], start, bytes, fed.packets, reading);
      forall r | Reads(incoming[..taken], r)
        ensures r == reading
      {
        ReadingIsUnique(incoming[..taken], r, reading);
      }
      if fed.packets == [] {
        return Keep;
      }
      if fed.packets[0] == Packet(KEY, expectedKey) {
        FewPacketsPerRead(start, bytes, fed.packets, reading);
        assert fed.packets == [fed.packets[0]] + fed.packets[1..];
        return Authenticated(fed.packets[1..]);
      }
      RefusalIsSendable();
      Answer(REFUSAL, room);
      return Drop;
    }

    method Answer(packet: Packet, room: nat)
      requires Sendable(packet)
      modifies this`written
      ensures written == old(written) + Prefix(Frame(packet), room)
    {
      var sent;
      sent, written := WriteTo(packet, written, room);
    }
  }

  lemma RefusalIsSendable()
    ensures Sendable(REFUSAL)
  {
    var text := REFUSAL_TEXT;
    assert |text| == 22;
    assert forall i :: 0 <= i < |text| ==> text[i] != 0;
  }

  /** The first `n` bytes, or all of them. */
  function Prefix(bytes: seq<Byte>, n: nat): seq<Byte> {
    bytes[..Min(n, |bytes|)]
  }

  lemma RejectedChunk(stream: seq<Byte>, r: Reading, bytes: seq<Byte>, framer: Framer)
    requires Reads(stream, r)
    requires exists at: nat, completed :: StopsInside(r.(packets := []), bytes, at, completed, framer.After(completed))
    ensures forall s :: !Reads(stream + bytes, s)
  {
    hide Frames, Begun;
    var at: nat, completed :| StopsInside(r.(packets := []), bytes, at, completed, framer.After(completed));
    AdvancesAnyway(r.(packets := []), r.packets, bytes[..at], completed, framer.After(completed));
    var reached := framer.After(r.packets + completed);
    AdvancesReads(stream, r, bytes[..at], completed, reached);
    var whole := stream + bytes;
    assert whole[..|stream| + at] == stream + bytes[..at];
    assert whole[..|whole|] == whole;
    forall s
      ensures !Reads(whole, s)
    {
      RejectionIsFinal(whole, |stream| + at, reached, |whole|, s);
    }
  }

  // ----- the listener

  /** What the listening socket reports: a connection, an interruption, or an error. */
  datatype Accept = Accepted(loopback: bool, configured: bool, incoming: seq<Byte>) | Interrupted | AcceptFailed

  datatype PollResult = NobodyYet | Admission(handshake: PendingHandshake, initial: seq<Packet>) | PollFailed

  ghost predicate Distinct(pending: seq<PendingHandshake>) {
    && (forall i, j :: 0 <= i < j < |pending| ==> pending[i] != pending[j])
    && (forall i, j :: 0 <= i < j < |pending| ==> pending[i].framer != pending[j].framer)
  }

  function Framers(pending: seq<PendingHandshake>): set<Framer> {
    set h | h in pending :: h.framer
  }

  /** `v.swap_remove(index)`: the last element takes the place of the removed one. */
  function SwapRemove<T>(items: seq<T>, index: nat): (rest: seq<T>)
    requires index < |items|
    ensures multiset(rest) == multiset(items) - multiset{items[index]}
  {
    var last := |items| - 1;
    assert items == items[..last] + [items[last]];
    if index == last then items[..last]
    else
      assert items[..last] == items[..index] + [items[index]] + items[index + 1..last];
      assert items[..last][index := items[last]] == items[..index] + [items[last]] + items[index + 1..last];
      items[..last][index := items[last]]
  }

  lemma FromIndexOn<T>(items: seq<T>, index: nat)
    requires index < |items|
    ensures multiset(items[index..]) == multiset{items[index]} + multiset(items[index + 1..])
  {
    assert items[index..] == [items[index]] + items[index + 1..];
  }

  lemma SwapRemoveFrom<T>(items: seq<T>, index: nat)
    requires index < |items|
    ensures multiset(SwapRemove(items, index)[index..]) + multiset{items[index]} == multiset(items[index..])
  {
    assert SwapRemove(items, index)[index..] == SwapRemove(items[index..], 0);
  }

  lemma SwapRemoveStaysDistinct(pending: seq<PendingHandshake>, index: nat)
    requires index < |pending| && Distinct(pending)
    ensures Distinct(SwapRemove(pending, index)) && pending[index] !in SwapRemove(pending, index)
  {
    var rest := SwapRemove(pending, index);
    assert forall i :: 0 <= i < |rest| ==> rest[i] == pending[if i == index then |rest| else i];
  }

  lemma SwapRemoveKeepsTheOthers<T>(items: seq<T>, index: nat)
    requires index < |items|
    ensures forall x :: x in SwapRemove(items, index) ==> x in items
    ensures forall x :: x in items ==> x in SwapRemove(items, index) || x == items[index]
  {
    var rest := SwapRemove(items, index);
    forall x
      ensures x in rest ==> x in items
      ensures x in items ==> x in rest || x == items[index]
    {
      assert x in items <==> x in multiset(items);
      assert x in rest <==> x in multiset(rest);
    }
  }

  /** What the given sockets' peers will ever send. */
  function Streams(pending: seq<PendingHandshake>): seq<seq<Byte>> {
    seq(|pending|, i requires 0 <= i < |pending| => pending[i].incoming)
  }

  /** What is sent by those who connect from this machine, up to the first error of the listening socket. */
  function Welcome(accepts: seq<Accept>): seq<seq<Byte>> {
    if accepts == [] || accepts[0].AcceptFailed? then []
    else (match accepts[0] case Accepted(true, true, incoming) => [incoming] case _ => []) + Welcome(accepts[1..])
  }

  lemma {:induction false} OneMoreWelcome(accepts: seq<Accept>, k: nat)
    requires k < |accepts| && AcceptFailed !in accepts[..k]
    ensures Welcome(accepts[..k + 1]) ==
            Welcome(accepts[..k]) + match accepts[k] case Accepted(true, true, incoming) => [incoming] case _ => []
    ensures accepts[k].AcceptFailed? ==> Welcome(accepts) == Welcome(accepts[..k])
  {
    var rest := accepts[1..];
    if k > 0 {
      assert accepts[..k][1..] == rest[..k - 1] && accepts[..k + 1][1..] == rest[..k];
      assert forall a :: a in rest[..k - 1] ==> a in accepts[..k];
      OneMoreWelcome(rest, k - 1);
    }
  }

  class BackendListener {
    var pending: seq<PendingHandshake>
    /** How often each socket has been advanced in the current poll. */
    ghost var visits: multiset<PendingHandshake>

    ghost predicate Valid()
      reads this, pending, Framers(pending)
    {
      && |pending| <= MAX_PENDING_HANDSHAKES && Distinct(pending)
      && forall h :: h in pending ==> h.Valid() && !h.dropped
    }

    constructor ()
      ensures Valid() && pending == []
    {
      pending, visits := [], multiset{};
    }

    method AcceptOne(accept: Accept, deadline: int) returns (r: Outcome)
      requires Valid()
      modifies this
      ensures Valid() && (r.Refused? <==> accept.AcceptFailed?)
      ensures if accept.Accepted? && accept.loopback && accept.configured && |old(pending)| < 8 then
                && |pending| == |old(pending)| + 1 && pending[..|old(pending)|] == old(pending)
                && var h := pending[|old(pending)|];
                   && fresh(h) && fresh(h.framer) && h.deadline == deadline && h.taken == 0 && h.written == []
                   && h.incoming == accept.incoming
              else pending == old(pending)
    {
      match accept {
        case Interrupted => return Done;
        case AcceptFailed => return Refused;
        case Accepted(loopback, configured, incoming) =>
          if !loopback || |pending| >= MAX_PENDING_HANDSHAKES {
            return Done;
          }
          if !configured {
            return Done;
          }
          var handshake := new PendingHandshake(incoming, deadline);
          pending := pending + [handshake];
          return Done;
      }
    }

    /** Takes in new sockets in the order of their arrival, at most eight at a time and only from this machine. */
    method AcceptAll(accepts: seq<Accept>, deadline: int) returns (r: Outcome)
      requires Valid()
      modifies this
      ensures Valid() && old(pending) <= pending && (r.Refused? <==> AcceptFailed in accepts)
      ensures forall h :: h in pending[|old(pending)|..] ==>
                fresh(h) && fresh(h.framer) && h.deadline == deadline && h.taken == 0 && h.written == []
      ensures Streams(pending[|old(pending)|..]) ==
              var welcome := Welcome(accepts); welcome[..Min(8 - |old(pending)|, |welcome|)]
    {
      ghost var n := |pending|;
      assert pending[n..] == [];
      for k := 0 to |accepts|
        invariant Valid() && old(pending) <= pending && AcceptFailed !in accepts[..k]
        invariant forall h :: h in pending[n..] ==>
                fresh(h) && fresh(h.framer) && h.deadline == deadline && h.taken == 0 && h.written == []
        invariant Streams(pending[n..]) == Welcome(accepts[..k])[..Min(8 - n, |Welcome(accepts[..k])|)]
      {
        ghost var before := pending;
        var accepted := AcceptOne(accepts[k], deadline);
        OneMoreWelcome(accepts, k);
        assert accepts[..k + 1] == accepts[..k] + [accepts[k]];
        assert |Streams(before[n..])| == |before| - n;
        if accepted.Refused? {
          return Refused;
        }
        if |pending| > |before| {
          assert pending[n..] == before[n..] + [pending[|before|]];
          assert Streams(pending[n..]) == Streams(before[n..]) + [pending[|before|].incoming];
        }
      }
      assert accepts[..|accepts|] == accepts;
      return Done;
    }

    /** One turn of the worklist: the socket at `index` is kept and passed over, or another takes its place. */
    method AdvanceOne(index: nat, expectedKey: seq<Byte>, now: int, network: Network)
      returns (step: HandshakeStep, next: nat)
      requires Valid() && index < |pending|
      modifies this, pending[index], pending[index].framer
      ensures Valid() && next <= |pending| && |pending| - next < old(|pending|) - index
      ensures visits == old(visits) + multiset{old(pending)[index]}
      ensures multiset(pending[next..]) + multiset{old(pending)[index]} == multiset(old(pending)[index..])
      ensures forall h :: h in pending ==> h in old(pending)
      ensures forall h :: h in old(pending) ==> h in pending || h == old(pending)[index]
      ensures old(pending)[index].dropped <==> step.Drop?
      ensures step.Drop? <==> old(pending[index].ShouldDrop(expectedKey, now, network))
      ensures step.Authenticated? <==> old(pending[index].ShouldAdmit(expectedKey, now, network))
      ensures old(pending)[index] in pending <==> step.Keep?
      ensures step.Authenticated? ==> old(pending)[index].Admitted(expectedKey, step.initial)
    {
      hide PendingHandshake.Valid, PendingHandshake.Admitted, SwapRemove;
      hide PendingHandshake.ShouldDrop, PendingHandshake.ShouldAdmit;
      var handshake := pending[index];
      step := handshake.Advance(expectedKey, now, network);
      visits := visits + multiset{handshake};
      if step.Keep? {
        FromIndexOn(pending, index);
        return step, index + 1;
      }
      RemoveAt(index);
      return step, index;
    }

    method RemoveAt(index: nat)
      requires index < |pending| && |pending| <= MAX_PENDING_HANDSHAKES && Distinct(pending)
      requires forall h :: h in pending && h != pending[index] ==> h.Valid() && !h.dropped
      modifies this`pending
      ensures Valid() && |pending| == |old(pending)| - 1
      ensures multiset(pending[index..]) + multiset{old(pending)[index]} == multiset(old(pending)[index..])
      ensures old(pending)[index] !in pending
      ensures forall h :: h in pending ==> h in old(pending)
      ensures forall h :: h in old(pending) ==> h in pending || h == old(pending)[index]
    {
      SwapRemoveKeepsTheOthers(pending, index);
      SwapRemoveFrom(pending, index);
      SwapRemoveStaysDistinct(pending, index);
      hide Distinct, SwapRemove;
      pending := SwapRemove(pending, index);
    }

    /**
     * The worklist so far: `late` are those to be dropped and `keyed` those to be admitted; what has been visited was
     * not to be admitted, and is pending exactly if it was not to be dropped.
     */
    ghost predicate Underway(start: seq<PendingHandshake>, index: nat, late: set<PendingHandshake>,
                             keyed: set<PendingHandshake>)
      reads this, start
    {
      && index <= |pending| && visits + multiset(pending[index..]) == multiset(start)
      && (forall h :: h in pending ==> h in start)
      && (forall h :: h in start ==> h in pending || h.dropped)
      && (forall h :: h in start && h.dropped ==> h in late)
      && (forall h :: h in visits ==> h !in keyed && (h in pending <==> h !in late))
    }

    /** Those not yet visited are as they were. */
    ghost predicate Foreseen(index: nat, late: set<PendingHandshake>, keyed: set<PendingHandshake>,
                             expectedKey: seq<Byte>, now: int, network: PendingHandshake -> Network)
      requires index <= |pending|
      reads this, pending
    {
      forall i :: index <= i < |pending| ==>
        && (pending[i] in late <==> pending[i].ShouldDrop(expectedKey, now, network(pending[i])))
        && (pending[i] in keyed <==> pending[i].ShouldAdmit(expectedKey, now, network(pending[i])))
    }

    /** One turn of the worklist. */
    method Turn(ghost start: seq<PendingHandshake>, index: nat, ghost late: set<PendingHandshake>,
                ghost keyed: set<PendingHandshake>,
                expectedKey: seq<Byte>, now: int, network: PendingHandshake -> Network)
      returns (step: HandshakeStep, next: nat)
      requires Valid() && index < |pending| && Underway(start, index, late, keyed) && Distinct(start)
      requires Foreseen(index, late, keyed, expectedKey, now, network)
      modifies this, pending[index], pending[index].framer
      ensures Valid() && next <= |pending| && |pending| - next < old(|pending|) - index
      ensures !step.Authenticated? ==> Underway(start, next, late, keyed)
      ensures !step.Authenticated? ==> Foreseen(next, late, keyed, expectedKey, now, network)
      ensures step.Authenticated? ==>
                var h := old(pending)[index];
                && h in keyed && h in start && h !in pending && !h.dropped && h.Admitted(expectedKey, step.initial)
                && visits <= multiset(start) && (forall k :: k in pending ==> k in start)
                && (forall k :: k in start ==> k in pending || k.dropped || k == h)
                && (forall k :: k in start && k.dropped ==> k in late)
    {
      hide PendingHandshake.Valid, PendingHandshake.Admitted, PendingHandshake.ShouldDrop, PendingHandshake.ShouldAdmit;
      hide Distinct;
      ghost var before := pending;
      ghost var handshake := pending[index];
      step, next := AdvanceOne(index, expectedKey, now, network(pending[index]));
      NotAmongTheRest(before, index, pending, next);
    }

    /**
     * The worklist: every pending socket is advanced exactly once, or at most once when one of them is admitted;
     * those that are to be neither dropped nor admitted stay pending, and no others.
     */
    method AdvanceAll(expectedKey: seq<Byte>, now: int, network: PendingHandshake -> Network) returns (r: PollResult)
      requires Valid()
      modifies this, pending, Framers(pending)
      ensures Valid() && !r.PollFailed?
      ensures visits <= multiset(old(pending))
      ensures r.NobodyYet? ==> visits == multiset(old(pending))
      ensures forall h :: h in pending ==> h in old(pending)
      ensures forall h :: h in old(pending) ==> h in pending || h.dropped || (r.Admission? && h == r.handshake)
      ensures forall h :: h in old(pending) && h.dropped ==> old(h.ShouldDrop(expectedKey, now, network(h)))
      ensures r.NobodyYet? ==>
                forall h :: h in old(pending) ==>
                  && (h in pending <==> !old(h.ShouldDrop(expectedKey, now, network(h))))
                  && !old(h.ShouldAdmit(expectedKey, now, network(h)))
      ensures r.Admission? ==>
                && r.handshake in old(pending) && r.handshake !in pending && !r.handshake.dropped
                && old(r.handshake.ShouldAdmit(expectedKey, now, network(r.handshake)))
                && r.handshake.Admitted(expectedKey, r.initial)
    {
      hide *;
      ghost var start := pending;
      ghost var late := set h | h in start && h.ShouldDrop(expectedKey, now, network(h));
      ghost var keyed := set h | h in start && h.ShouldAdmit(expectedKey, now, network(h));
      Begin(late, keyed, expectedKey, now, network);
      var index: nat := 0;
      while index < |pending|
        invariant index <= |pending| && Valid() && (forall h :: h in pending ==> h in start)
        invariant Underway(start, index, late, keyed) && Foreseen(index, late, keyed, expectedKey, now, network)
        decreases |pending| - index
      {
        var handshake := pending[index];
        HasFramer(start, handshake);
        var step;
        step, index := Turn(start, index, late, keyed, expectedKey, now, network);
        if step.Authenticated? {
          return Admission(handshake, step.initial);
        }
        UnderwayIsInside(start, index, late, keyed);
      }
      AllVisited(start, index, late, keyed);
      return NobodyYet;
    }

    ghost method Begin(late: set<PendingHandshake>, keyed: set<PendingHandshake>,
                       expectedKey: seq<Byte>, now: int, network: PendingHandshake -> Network)
      requires Valid()
      requires late == set h | h in pending && h.ShouldDrop(expectedKey, now, network(h))
      requires keyed == set h | h in pending && h.ShouldAdmit(expectedKey, now, network(h))
      modifies this`visits
      ensures Valid() && Underway(pending, 0, late, keyed) && Foreseen(0, late, keyed, expectedKey, now, network)
      ensures Distinct(pending)
    {
      visits := multiset{};
      assert pending[0..] == pending;
    }

    lemma UnderwayIsInside(start: seq<PendingHandshake>, index: nat, late: set<PendingHandshake>,
                           keyed: set<PendingHandshake>)
      requires Underway(start, index, late, keyed)
      ensures forall h :: h in pending ==> h in start
    {
    }

    lemma AllVisited(start: seq<PendingHandshake>, index: nat, late: set<PendingHandshake>,
                     keyed: set<PendingHandshake>)
      requires Underway(start, index, late, keyed) && index >= |pending|
      ensures visits == multiset(start)
      ensures forall h :: h in pending ==> h in start
      ensures forall h :: h in start ==> h !in keyed && (h in pending || h.dropped) && (h in pending <==> h !in late)
      ensures forall h :: h in start && h.dropped ==> h in late
    {
      assert pending[index..] == [];
      assert visits == multiset(start);
      assert forall h :: h in start ==> h in multiset(start);
    }
  }

  /** Distinct sockets: the one that was visited is none of those still to be. */
  lemma NotAmongTheRest(before: seq<PendingHandshake>, index: nat, after: seq<PendingHandshake>, next: nat)
    requires index < |before| && next <= |after| && Distinct(before)
    requires multiset(after[next..]) + multiset{before[index]} == multiset(before[index..])
    ensures forall i :: next <= i < |after| ==> after[i] != before[index] && after[i] in before[index + 1..]
  {
    FromIndexOn(before, index);
    var rest, others := after[next..], before[index + 1..];
    assert multiset(rest) == multiset(before[index..]) - multiset{before[index]} == multiset(others);
    forall i | next <= i < |after|
      ensures after[i] != before[index] && after[i] in others
    {
      assert after[i] == rest[i - next] && rest[i - next] in multiset(rest);
      assert after[i] in multiset(others);
    }
  }

  lemma HasFramer(pending: seq<PendingHandshake>, handshake: PendingHandshake)
    requires handshake in pending
    ensures handshake.framer in Framers(pending)
  {
  }
}
