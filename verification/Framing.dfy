/** Packet framing on the control channel: src/protocol.rs and the reading half of BackendClient.java. */
module Framing {
  import opened Prelude

  const MAX_PACKET_SIZE: nat := 1024 * 1024

  const STOP: Byte := 101
  const KEY: Byte := 110
  const BAD_KEY: Byte := 111

  datatype Packet = Packet(code: Byte, message: seq<Byte>)

  // ----- the wire format

  predicate Sendable(packet: Packet) {
    |packet.message| <= MAX_PACKET_SIZE && 0 !in packet.message
  }

  function Frame(packet: Packet): seq<Byte> {
    [packet.code] + packet.message + [0]
  }

  function Frames(packets: seq<Packet>): seq<Byte> {
    if packets == [] then [] else Frame(packets[0]) + Frames(packets[1..])
  }

  lemma {:induction false} FramesConcat(a: seq<Packet>, b: seq<Packet>)
    ensures Frames(a + b) == Frames(a) + Frames(b)
  {
    hide Frame;
    if a == [] {
      assert a + b == b;
    } else {
      FramesConcat(a[1..], b);
      assert (a + b)[0] == a[0] && (a + b)[1..] == a[1..] + b;
      Assoc(Frame(a[0]), Frames(a[1..]), Frames(b));
    }
  }

  lemma {:induction false} FramesLength(packets: seq<Packet>)
    ensures |Frames(packets)| >= 2 * |packets|
  {
    if packets != [] {
      FramesLength(packets[1..]);
    }
  }

  /** The packets a stream has completed, and the packet it has begun. */
  datatype Reading = Reading(packets: seq<Packet>, code: Option<Byte>, partial: seq<Byte>)

  const NOTHING_READ := Reading([], None, [])

  function Begun(r: Reading): seq<Byte> {
    if r.code.None? then [] else [r.code.value] + r.partial
  }

  ghost predicate ValidReading(r: Reading) {
    && (forall i :: 0 <= i < |r.packets| ==> Sendable(r.packets[i]))
    && |r.partial| <= MAX_PACKET_SIZE && 0 !in r.partial
    && (r.code.None? ==> r.partial == [])
  }

  /** The stream is exactly the frames of the completed packets followed by the begun one. */
  ghost predicate Reads(stream: seq<Byte>, r: Reading) {
    ValidReading(r) && stream == Frames(r.packets) + Begun(r)
  }

  /** Byte `at` of the stream is the first byte of a payload beyond the size limit. */
  ghost predicate RejectsAt(stream: seq<Byte>, at: nat, r: Reading) {
    && at < |stream| && stream[at] != 0
    && Reads(stream[..at], r) && r.code.Some? && |r.partial| == MAX_PACKET_SIZE
  }

  // ----- the wire format is unambiguous

  lemma NulFreePrefix(a: seq<Byte>, b: seq<Byte>, x: seq<Byte>, y: seq<Byte>)
    requires 0 !in a && 0 !in b && a + [0] + x == b + [0] + y
    ensures a == b && x == y
  {
    var left, right := a + [0] + x, b + [0] + y;
    assert left[|a|] == 0 && right[|b|] == 0;
    assert forall i :: 0 <= i < |a| ==> left[i] == a[i];
    assert forall i :: 0 <= i < |b| ==> right[i] == b[i];
    assert left[..|a|] == a && right[..|b|] == b;
    assert left[|a| + 1..] == x && right[|b| + 1..] == y;
  }

  lemma SameFirstFrame(p: Packet, q: Packet, x: seq<Byte>, y: seq<Byte>)
    requires Sendable(p) && Sendable(q) && Frame(p) + x == Frame(q) + y
    ensures p == q && x == y
  {
    assert (Frame(p) + x)[1..] == p.message + [0] + x;
    assert (Frame(q) + y)[1..] == q.message + [0] + y;
    assert (Frame(p) + x)[0] == (Frame(q) + y)[0];
    NulFreePrefix(p.message, q.message, x, y);
  }

  lemma BegunHasNoFrame(r: Reading, p: Packet, x: seq<Byte>)
    requires ValidReading(r)
    ensures Begun(r) != Frame(p) + x
  {
    var at := |p.message| + 1;
    assert (Frame(p) + x)[at] == 0;
    assert forall i :: 1 <= i < |Begun(r)| ==> Begun(r)[i] == r.partial[i - 1];
  }

  lemma TooLongForFrame(code: Byte, payload: seq<Byte>, more: seq<Byte>, p: Packet, x: seq<Byte>)
    requires 0 !in payload && |payload| > |p.message|
    ensures [code] + payload + more != Frame(p) + x
  {
    var at := |p.message| + 1;
    assert ([code] + payload + more)[at] == payload[at - 1];
    assert (Frame(p) + x)[at] == 0;
  }

  /** A payload beyond the limit is in no reading. */
  lemma TooLongToRead(code: Byte, payload: seq<Byte>, more: seq<Byte>, packets: seq<Packet>, s: Reading)
    requires 0 !in payload && |payload| > MAX_PACKET_SIZE
    requires ValidReading(s) && forall i :: 0 <= i < |packets| ==> Sendable(packets[i])
    ensures [code] + payload + more != Frames(packets) + Begun(s)
  {
    if packets == [] {
      assert |Frames(packets) + Begun(s)| <= MAX_PACKET_SIZE + 1;
    } else {
      var beyond := Frames(packets[1..]) + Begun(s);
      FirstFrame(packets, Begun(s));
      hide Frames, Frame;
      TooLongForFrame(code, payload, more, packets[0], beyond);
    }
  }

  lemma FirstFrame(packets: seq<Packet>, more: seq<Byte>)
    requires packets != []
    ensures Frames(packets) + more == Frame(packets[0]) + (Frames(packets[1..]) + more)
  {
  }

  lemma NoFrames(more: seq<Byte>)
    ensures Frames([]) + more == more
  {
  }

  lemma BegunIs(r: Reading, packets: seq<Packet>)
    ensures Begun(r.(packets := packets)) == Begun(r)
    ensures Begun(r) == if r.code.None? then [] else [r.code.value] + r.partial
  {
  }

  /** A longer stream only adds packets, and no stream continues past the byte at which it is rejected. */
  lemma {:induction false} ReadingGrows(stream: seq<Byte>, more: seq<Byte>, r: Reading, s: Reading)
    requires Reads(stream, r) && Reads(stream + more, s)
    ensures r.packets <= s.packets
    ensures Begun(r) + more == Frames(s.packets[|r.packets|..]) + Begun(s)
    decreases |r.packets|
  {
    hide Frame, Frames, Begun;
    NoFrames(Begun(r));
    NoFrames(Begun(s));
    if r.packets == [] {
      assert s.packets[0..] == s.packets;
    } else {
      var first := r.packets[0];
      var rest := Frames(r.packets[1..]) + Begun(r);
      FirstFrame(r.packets, Begun(r));
      Assoc(Frame(first), rest, more);
      if s.packets == [] {
        BegunHasNoFrame(s, first, rest + more);
      } else {
        FirstFrame(s.packets, Begun(s));
        SameFirstFrame(first, s.packets[0], rest + more, Frames(s.packets[1..]) + Begun(s));
        BegunIs(r, r.packets[1..]);
        BegunIs(s, s.packets[1..]);
        ReadingGrows(rest, more, r.(packets := r.packets[1..]), s.(packets := s.packets[1..]));
        assert s.packets[1..][|r.packets[1..]|..] == s.packets[|r.packets|..];
      }
    }
  }

  /** Every stream can be read in at most one way. */
  lemma ReadingIsUnique(stream: seq<Byte>, r: Reading, s: Reading)
    requires Reads(stream, r) && Reads(stream, s)
    ensures r == s
  {
    hide Frame, Frames, Begun;
    assert stream + [] == stream;
    ReadingGrows(stream, [], r, s);
    ReadingGrows(stream, [], s, r);
    assert s.packets[|r.packets|..] == [];
    NoFrames(Begun(s));
    assert Begun(r) + [] == Begun(r);
    BegunDetermines(r, s);
  }

  lemma BegunDetermines(r: Reading, s: Reading)
    requires ValidReading(r) && ValidReading(s) && Begun(r) == Begun(s)
    ensures r.code == s.code && r.partial == s.partial
  {
    assert r.code.Some? ==> Begun(r)[0] == r.code.value && Begun(r)[1..] == r.partial;
    assert s.code.Some? ==> Begun(s)[0] == s.code.value && Begun(s)[1..] == s.partial;
  }

  lemma RejectionIsFinal(stream: seq<Byte>, at: nat, r: Reading, longer: nat, s: Reading)
    requires RejectsAt(stream, at, r) && at < longer <= |stream|
    ensures !Reads(stream[..longer], s)
  {
    if Reads(stream[..longer], s) {
      hide Frame, Frames, Begun;
      var more := stream[at..longer];
      assert stream[..at] + more == stream[..longer];
      ReadingGrows(stream[..at], more, r, s);
      BegunIs(r, r.packets);
      assert more == [stream[at]] + more[1..];
      Regrouped([r.code.value], r.partial, [stream[at]], more[1..]);
      TooLongToRead(r.code.value, r.partial + [stream[at]], more[1..], s.packets[|r.packets|..], s);
    }
  }

  lemma Regrouped<T>(a: seq<T>, b: seq<T>, c: seq<T>, d: seq<T>)
    ensures a + b + (c + d) == a + (b + c) + d
  {
  }

  // ----- both decoders against the wire format

  /** `bytes` carries the reading from `r` to `s`, completing `completed` on the way. */
  ghost predicate Advances(r: Reading, bytes: seq<Byte>, completed: seq<Packet>, s: Reading) {
    ValidReading(s) && s.packets == r.packets + completed && Begun(r) + bytes == Frames(completed) + Begun(s)
  }

  lemma AdvancesReads(stream: seq<Byte>, r: Reading, bytes: seq<Byte>, completed: seq<Packet>, s: Reading)
    requires Reads(stream, r) && Advances(r, bytes, completed, s)
    ensures Reads(stream + bytes, s)
  {
    hide Frame, Frames, Begun;
    FramesConcat(r.packets, completed);
    Assoc(Frames(r.packets), Begun(r), bytes);
    Assoc(Frames(r.packets), Frames(completed), Begun(s));
  }

  /** Whatever two decoders make of a stream, they reject it at the same byte, having read the same packets. */
  lemma RejectionIsUnique(stream: seq<Byte>, at: nat, r: Reading, other: nat, s: Reading)
    requires RejectsAt(stream, at, r) && RejectsAt(stream, other, s)
    ensures at == other && r == s
  {
    if at < other {
      RejectionIsFinal(stream, at, r, other, s);
    } else if other < at {
      RejectionIsFinal(stream, other, s, at, r);
    } else {
      ReadingIsUnique(stream[..at], r, s);
    }
  }

  /** A stream that some decoder reads to its end is rejected by none. */
  lemma ReadMeansNotRejected(stream: seq<Byte>, r: Reading, at: nat, s: Reading)
    requires Reads(stream, r)
    ensures !RejectsAt(stream, at, s)
  {
    if RejectsAt(stream, at, s) {
      assert stream[..|stream|] == stream;
      RejectionIsFinal(stream, at, s, |stream|, r);
    }
  }

  /** What a stream amounts to: it is read to its end, or rejected at one byte. */
  datatype Verdict = WholeStream(reading: Reading) | Rejected(at: nat, reading: Reading)

  ghost predicate Decodes(stream: seq<Byte>, verdict: Verdict) {
    match verdict
    case WholeStream(r) => Reads(stream, r)
    case Rejected(at, r) => RejectsAt(stream, at, r)
  }

  /** The verdict belongs to the byte stream alone: two decoders that both meet the wire format cannot differ. */
  lemma VerdictIsUnique(stream: seq<Byte>, v: Verdict, w: Verdict)
    requires Decodes(stream, v) && Decodes(stream, w)
    ensures v == w
  {
    match (v, w) {
      case (WholeStream(r), WholeStream(s)) => ReadingIsUnique(stream, r, s);
      case (Rejected(at, r), Rejected(other, s)) => RejectionIsUnique(stream, at, r, other, s);
      case (WholeStream(r), Rejected(at, s)) => ReadMeansNotRejected(stream, r, at, s);
      case (Rejected(at, r), WholeStream(s)) => ReadMeansNotRejected(stream, s, at, r);
    }
  }

  /** Packets accepted for sending are read back as themselves, with nothing left over, and never rejected. */
  lemma SentPacketsAreReadBack(packets: seq<Packet>, r: Reading, at: nat, s: Reading)
    requires forall i :: 0 <= i < |packets| ==> Sendable(packets[i])
    ensures Reads(Frames(packets), r) <==> r == Reading(packets, None, [])
    ensures !RejectsAt(Frames(packets), at, s)
  {
    var expected := Reading(packets, None, []);
    assert Frames(packets) == Frames(packets) + Begun(expected);
    if Reads(Frames(packets), r) {
      ReadingIsUnique(Frames(packets), r, expected);
    }
    ReadMeansNotRejected(Frames(packets), expected, at, s);
  }

  // ----- every stream has a verdict

  lemma NulEndsPacket(received: seq<Byte>, r: Reading)
    requires Reads(received, r) && r.code.Some?
    ensures Reads(received + [0], Reading(r.packets + [Packet(r.code.value, r.partial)], None, []))
  {
    var last := Packet(r.code.value, r.partial);
    FramesConcat(r.packets, [last]);
    assert Frames([last]) == Frame(last) + Frames([]);
    assert Begun(r) + [0] == Frame(last);
    assert received + [0] == Frames(r.packets) + (Begun(r) + [0]);
  }

  lemma ByteReads(stream: seq<Byte>, s: Reading, byte: Byte, n: Reading)
    requires Reads(stream, s) && ValidReading(n) && Lengthened(s, byte, n)
    ensures Reads(stream + [byte], n)
  {
    hide Frames;
    assert Begun(n) == Begun(s) + [byte];
    Assoc(Frames(s.packets), Begun(s), [byte]);
  }

  /** `s` with one more byte begun. */
  predicate Lengthened(s: Reading, byte: Byte, n: Reading) {
    && n.packets == s.packets && n.code.Some?
    && if s.code.None? then n.code.value == byte && n.partial == [] else n.code == s.code && n.partial == s.partial + [byte]
  }

  lemma NothingRead()
    ensures Reads([], NOTHING_READ)
  {
  }

  lemma OneByteMore(stream: seq<Byte>, r: Reading, byte: Byte) returns (v: Verdict)
    requires Reads(stream, r)
    ensures Decodes(stream + [byte], v)
  {
    if r.code.None? {
      v := WholeStream(r.(code := Some(byte)));
      ByteReads(stream, r, byte, v.reading);
    } else if byte == 0 {
      v := WholeStream(Reading(r.packets + [Packet(r.code.value, r.partial)], None, []));
      NulEndsPacket(stream, r);
    } else if |r.partial| == MAX_PACKET_SIZE {
      v := Rejected(|stream|, r);
      assert (stream + [byte])[..|stream|] == stream;
    } else {
      v := WholeStream(r.(partial := r.partial + [byte]));
      ByteReads(stream, r, byte, v.reading);
    }
  }

  /** The wire format leaves no stream undecided. */
  lemma {:induction false} EveryStreamIsDecoded(stream: seq<Byte>) returns (v: Verdict)
    ensures Decodes(stream, v)
  {
    hide Reads, ValidReading;
    if stream == [] {
      v := WholeStream(NOTHING_READ);
      NothingRead();
    } else {
      var last := |stream| - 1;
      var before := stream[..last];
      assert stream == before + [stream[last]];
      v := EveryStreamIsDecoded(before);
      if v.WholeStream? {
        v := OneByteMore(before, v.reading, stream[last]);
      } else {
        assert stream[..v.at] == before[..v.at];
      }
    }
  }

  // ----- what the Java side sends

  /** The Java side refuses a payload that is too long, and nothing else. */
  predicate JavaSendable(packet: Packet) {
    |packet.message| <= MAX_PACKET_SIZE
  }

  lemma JavaPacketsAreNotRejected(packet: Packet) returns (r: Reading)
    requires JavaSendable(packet)
    ensures Reads(Frame(packet), r)
  {
    hide Frames;
    var v := EveryStreamIsDecoded(Frame(packet));
    r := v.reading;
  }

  /** What the Java side sends is always readable, and it is read back as itself if and only if it holds no NUL. */
  lemma JavaPacketIsReadBackIff(packet: Packet)
    requires JavaSendable(packet)
    ensures exists r: Reading :: Reads(Frame(packet), r)
    ensures forall r: Reading :: Reads(Frame(packet), r) ==> (r == Reading([packet], None, []) <==> 0 !in packet.message)
  {
    var r := JavaPacketsAreNotRejected(packet);
    assert Frames([packet]) == Frame(packet) + Frames([]);
    forall s: Reading | Reads(Frame(packet), s)
      ensures s == Reading([packet], None, []) <==> 0 !in packet.message
    {
      if 0 !in packet.message {
        SentPacketsAreReadBack([packet], s, 0, s);
      }
      ReadBackIffSendable(packet);
    }
  }

  /** A NUL in a payload ends the packet there; what follows is read as something else. */
  lemma NulSplitsPayload(code: Byte, before: seq<Byte>, after: seq<Byte>)
    requires JavaSendable(Packet(code, before + [0] + after)) && 0 !in before
    ensures exists r: Reading ::
              Reads(Frame(Packet(code, before + [0] + after)), r) && r.packets != [] && r.packets[0] == Packet(code, before)
  {
    var whole, part := Packet(code, before + [0] + after), Packet(code, before);
    var r := JavaPacketsAreNotRejected(whole);
    ReadBackIffSendable(part);
    assert Frame(whole) == Frame(part) + (after + [0]);
    hide Frame, Reads;
    ReadingGrows(Frame(part), after + [0], Reading([part], None, []), r);
    assert [part][0] == r.packets[0];
  }

  // ----- the Rust framer

  datatype FeedResult = Fed(packets: seq<Packet>) | TooLarge

  /** How far `bytes` was read, from `r`, before its first byte too many. */
  ghost predicate StopsInside(r: Reading, bytes: seq<Byte>, at: nat, completed: seq<Packet>, s: Reading) {
    && at < |bytes| && bytes[at] != 0
    && Advances(r, bytes[..at], completed, s) && s.code.Some? && |s.partial| == MAX_PACKET_SIZE
  }

  class Framer {
    var pendingCode: Option<Byte>
    var partial: seq<Byte>

    /** The framer's state after `packets` have been completed. */
    function After(packets: seq<Packet>): Reading
      reads this
    {
      Reading(packets, pendingCode, partial)
    }

    ghost predicate Valid()
      reads this
    {
      ValidReading(After([]))
    }

    constructor ()
      ensures Valid() && After([]) == NOTHING_READ
    {
      pendingCode, partial := None, [];
    }

    /** Feeding a chunk completes exactly the packets that end in it; on the first byte too many all of them are dropped. */
    method Feed(bytes: seq<Byte>) returns (r: FeedResult)
      requires Valid()
      modifies this
      ensures Valid()
      ensures r.Fed? ==> Advances(old(After([])), bytes, r.packets, After(r.packets))
      ensures r.TooLarge? ==> exists at, completed :: StopsInside(old(After([])), bytes, at, completed, After(completed))
    {
      hide Frames, Begun;
      ghost var start := After([]);
      var completed := [];
      NothingAdvances(start);
      for i := 0 to |bytes|
        invariant Advances(start, bytes[..i], completed, After(completed))
      {
        ghost var before := After(completed);
        assert bytes[..i + 1] == bytes[..i] + [bytes[i]];
        if pendingCode.None? {
          pendingCode := Some(bytes[i]);
          ByteAdvances(start, bytes[..i], completed, before, bytes[i], After(completed));
        } else if bytes[i] == 0 {
          CompletingAdvances(start, bytes[..i], completed, before);
          completed := completed + [Packet(pendingCode.value, partial)];
          partial := [];
          pendingCode := None;
        } else {
          if |partial| >= MAX_PACKET_SIZE {
            assert StopsInside(start, bytes, i, completed, After(completed));
            return TooLarge;
          }
          partial := partial + [bytes[i]];
          ByteAdvances(start, bytes[..i], completed, before, bytes[i], After(completed));
        }
      }
      assert bytes[..|bytes|] == bytes;
      return Fed(completed);
    }

    predicate IsIdle()
      reads this
    {
      pendingCode.None?
    }
  }

  /** Chunk `k` is the first that brings a byte too many; it comes after `packets`, and its own packets are dropped. */
  ghost predicate RejectedInChunk(chunks: seq<seq<Byte>>, k: nat, packets: seq<Packet>) {
    && k < |chunks|
    && (exists r: Reading :: Reads(Flatten(chunks[..k]), r) && r.packets == packets)
    && exists at: nat, s: Reading ::
         && RejectsAt(Flatten(chunks), at, s) && packets <= s.packets
         && |Flatten(chunks[..k])| <= at < |Flatten(chunks[..k + 1])|
  }

  /** What the framer makes of a stream that arrives in these chunks. */
  ghost predicate Delivers(chunks: seq<seq<Byte>>, packets: seq<Packet>) {
    || (exists r: Reading :: Reads(Flatten(chunks), r) && r.packets == packets)
    || exists k :: RejectedInChunk(chunks, k, packets)
  }

  ghost predicate IsRejected(stream: seq<Byte>) {
    exists at: nat, s: Reading :: RejectsAt(stream, at, s)
  }

  /**
   * Feeding a stream chunk by chunk: unless a payload is too long the chunks make no difference; otherwise the whole
   * chunk with the offending byte is lost, so that only the packets of the chunks before it come out.
   */
  method FeedAll(chunks: seq<seq<Byte>>) returns (packets: seq<Packet>, framer: Framer, rejected: bool)
    ensures fresh(framer) && (!rejected ==> Reads(Flatten(chunks), framer.After(packets)))
    ensures rejected ==> exists k :: RejectedInChunk(chunks, k, packets)
    ensures Delivers(chunks, packets) && (rejected <==> IsRejected(Flatten(chunks)))
  {
    hide Frames, Begun, ValidReading;
    framer := new Framer();
    packets, rejected := [], false;
    NothingRead();
    for k := 0 to |chunks|
      invariant fresh(framer) && framer.Valid() && Reads(Flatten(chunks[..k]), framer.After(packets))
    {
      ghost var start, sofar := framer.After([]), Flatten(chunks[..k]);
      ChunksSoFar(chunks, k);
      var fed := framer.Feed(chunks[k]);
      ReadingIsValid(sofar, start.(packets := packets));
      if fed.TooLarge? {
        ghost var at: nat, completed :| StopsInside(start, chunks[k], at, completed, framer.After(completed));
        ChunkStopsInside(chunks, k, start.(packets := packets), at, completed, framer.After(completed));
        return packets, framer, true;
      }
      AdvancesAnyway(start, packets, chunks[k], fed.packets, framer.After(fed.packets));
      AdvancesReads(sofar, start.(packets := packets), chunks[k], fed.packets, framer.After(packets + fed.packets));
      packets := packets + fed.packets;
    }
    assert chunks[..|chunks|] == chunks;
    forall at: nat, s: Reading
      ensures !RejectsAt(Flatten(chunks), at, s)
    {
      ReadMeansNotRejected(Flatten(chunks), framer.After(packets), at, s);
    }
  }

  lemma ReadingIsValid(stream: seq<Byte>, r: Reading)
    requires Reads(stream, r)
    ensures forall i :: 0 <= i < |r.packets| ==> Sendable(r.packets[i])
  {
  }

  /** The packets that a rejected stream yields in one way of arriving are among those complete before its bad byte. */
  lemma DeliveredFromRejected(chunks: seq<seq<Byte>>, packets: seq<Packet>, at: nat, s: Reading)
    requires Delivers(chunks, packets) && RejectsAt(Flatten(chunks), at, s)
    ensures packets <= s.packets
  {
    RejectedMeansNotRead(Flatten(chunks), at, s);
    var k :| RejectedInChunk(chunks, k, packets);
    var other: nat, t: Reading :| RejectsAt(Flatten(chunks), other, t) && packets <= t.packets;
    RejectionIsUnique(Flatten(chunks), at, s, other, t);
  }

  lemma RejectingChunkIsUnique(chunks: seq<seq<Byte>>, k: nat, p: seq<Packet>, l: nat, q: seq<Packet>)
    requires k <= l && RejectedInChunk(chunks, k, p) && RejectedInChunk(chunks, l, q)
    ensures p == q
  {
    hide Flatten, Reads, RejectsAt;
    var at: nat, s: Reading :| RejectsAt(Flatten(chunks), at, s) && |Flatten(chunks[..k])| <= at < |Flatten(chunks[..k + 1])|;
    var other: nat, t: Reading :|
      RejectsAt(Flatten(chunks), other, t) && |Flatten(chunks[..l])| <= other < |Flatten(chunks[..l + 1])|;
    RejectionIsUnique(Flatten(chunks), at, s, other, t);
    if k < l {
      LongerPrefix(chunks, k + 1, l);
    }
    var r: Reading :| Reads(Flatten(chunks[..k]), r) && r.packets == p;
    var u: Reading :| Reads(Flatten(chunks[..l]), u) && u.packets == q;
    ReadingIsUnique(Flatten(chunks[..k]), r, u);
  }

  lemma LongerPrefix(chunks: seq<seq<Byte>>, k: nat, l: nat)
    requires k <= l <= |chunks|
    ensures |Flatten(chunks[..k])| <= |Flatten(chunks[..l])|
  {
    FlattenSplit(chunks[..l], chunks[..k], chunks[k..l]);
  }

  /** The chunks determine the packets. */
  lemma DeliveryIsUnique(chunks: seq<seq<Byte>>, p: seq<Packet>, q: seq<Packet>)
    requires Delivers(chunks, p) && Delivers(chunks, q)
    ensures p == q
  {
    var v := EveryStreamIsDecoded(Flatten(chunks));
    match v {
      case WholeStream(r) =>
        ReadStreamsAreDeliveredWhole(Flatten(chunks), r);
      case Rejected(at, s) =>
        RejectedMeansNotRead(Flatten(chunks), at, s);
        var k: nat :| RejectedInChunk(chunks, k, p);
        var l: nat :| RejectedInChunk(chunks, l, q);
        if k <= l {
          RejectingChunkIsUnique(chunks, k, p, l, q);
        } else {
          RejectingChunkIsUnique(chunks, l, q, k, p);
        }
    }
  }

  lemma RejectedMeansNotRead(stream: seq<Byte>, at: nat, s: Reading)
    requires RejectsAt(stream, at, s)
    ensures forall r: Reading :: !Reads(stream, r)
  {
    forall r: Reading
      ensures !Reads(stream, r)
    {
      if Reads(stream, r) {
        ReadMeansNotRejected(stream, r, at, s);
      }
    }
  }

  /** A rejected stream that arrives as one chunk yields nothing. */
  lemma OneChunkLosesEverything(stream: seq<Byte>, at: nat, s: Reading)
    requires RejectsAt(stream, at, s)
    ensures Flatten([stream]) == stream && Delivers([stream], [])
  {
    FlattenOne(stream);
    NothingRead();
    assert [stream][..0] == [] && [stream][..1] == [stream];
    assert RejectedInChunk([stream], 0, []);
  }

  /** Cut just before the bad byte, it yields every packet complete by then. */
  lemma CuttingBeforeTheByteLosesNothing(stream: seq<Byte>, at: nat, s: Reading)
    requires RejectsAt(stream, at, s)
    ensures var chunks := [stream[..at], stream[at..]];
            Flatten(chunks) == stream && Delivers(chunks, s.packets)
  {
    var before, after := stream[..at], stream[at..];
    var chunks := [before, after];
    FlattenConcat([before], [after]);
    FlattenOne(before);
    FlattenOne(after);
    assert chunks == [before] + [after] && before + after == stream;
    assert chunks[..1] == [before] && chunks[..2] == chunks;
    assert RejectedInChunk(chunks, 1, s.packets);
  }

  /**
   * For a stream with an oversize payload, every way of arriving yields the packets before that payload if and only
   * if there are none.
   */
  lemma RejectedStreamsDependOnTheirChunks(stream: seq<Byte>, at: nat, s: Reading)
    requires RejectsAt(stream, at, s)
    ensures (forall chunks, packets :: Flatten(chunks) == stream && Delivers(chunks, packets) ==> packets == s.packets)
            <==> s.packets == []
  {
    OneChunkLosesEverything(stream, at, s);
    if s.packets == [] {
      forall chunks, packets | Flatten(chunks) == stream && Delivers(chunks, packets)
        ensures packets == s.packets
      {
        DeliveredFromRejected(chunks, packets, at, s);
      }
    }
  }

  /** How a stream is cut decides nothing. */
  ghost predicate ChunksDoNotMatter(stream: seq<Byte>) {
    forall a, b, p, q :: Flatten(a) == stream && Flatten(b) == stream && Delivers(a, p) && Delivers(b, q) ==> p == q
  }

  /** The chunks of a stream do not matter if and only if no packet is complete before an oversize payload. */
  lemma ChunksMatterIff(stream: seq<Byte>)
    ensures ChunksDoNotMatter(stream) <==> forall at: nat, s: Reading :: RejectsAt(stream, at, s) ==> s.packets == []
  {
    var v := EveryStreamIsDecoded(stream);
    hide ChunksDoNotMatter;
    match v {
      case WholeStream(r) => ReadStreamsAreDeliveredWhole(stream, r);
      case Rejected(at, s) =>
        forall other: nat, t: Reading | RejectsAt(stream, other, t)
          ensures t == s
        {
          RejectionIsUnique(stream, at, s, other, t);
        }
        ChunksOfARejectedStream(stream, at, s);
    }
  }

  lemma ChunksOfARejectedStream(stream: seq<Byte>, at: nat, s: Reading)
    requires RejectsAt(stream, at, s)
    ensures ChunksDoNotMatter(stream) <==> s.packets == []
  {
    OneChunkLosesEverything(stream, at, s);
    CuttingBeforeTheByteLosesNothing(stream, at, s);
    hide RejectsAt, Delivers, Flatten, ChunksDoNotMatter;
    if s.packets == [] {
      forall chunks, packets | Flatten(chunks) == stream && Delivers(chunks, packets)
        ensures packets == []
      {
        DeliveredFromRejected(chunks, packets, at, s);
      }
      AlwaysTheSame(stream, []);
    } else {
      NotTheSame(stream, [stream], [], [stream[..at], stream[at..]], s.packets);
    }
  }

  lemma AlwaysTheSame(stream: seq<Byte>, p: seq<Packet>)
    requires forall chunks, packets :: Flatten(chunks) == stream && Delivers(chunks, packets) ==> packets == p
    ensures ChunksDoNotMatter(stream)
  {
    hide Flatten, Delivers;
  }

  lemma NotTheSame(stream: seq<Byte>, a: seq<seq<Byte>>, p: seq<Packet>, b: seq<seq<Byte>>, q: seq<Packet>)
    requires Flatten(a) == stream && Flatten(b) == stream && Delivers(a, p) && Delivers(b, q) && p != q
    ensures !ChunksDoNotMatter(stream)
  {
    hide Flatten, Delivers;
  }

  lemma ReadStreamsAreDeliveredWhole(stream: seq<Byte>, r: Reading)
    requires Reads(stream, r)
    ensures ChunksDoNotMatter(stream) && forall at: nat, s: Reading :: !RejectsAt(stream, at, s)
  {
    forall at: nat, s: Reading
      ensures !RejectsAt(stream, at, s)
    {
      ReadMeansNotRejected(stream, r, at, s);
    }
    forall chunks, packets | Flatten(chunks) == stream && Delivers(chunks, packets)
      ensures packets == r.packets
    {
      var s: Reading :| Reads(stream, s) && s.packets == packets;
      ReadingIsUnique(stream, r, s);
    }
  }

  /** An empty packet, then the first bytes of a payload that is one byte too long. */
  function LossyStream(): seq<Byte> {
    Frame(Packet(STOP, [])) + ([STOP] + seq(MAX_PACKET_SIZE + 1, i => STOP))
  }

  lemma LossyStreamIsRejected() returns (at: nat, s: Reading)
    ensures RejectsAt(LossyStream(), at, s) && s.packets == [Packet(STOP, [])]
  {
    s := Reading([Packet(STOP, [])], Some(STOP), seq(MAX_PACKET_SIZE, i => STOP));
    at := MAX_PACKET_SIZE + 3;
    var stream := LossyStream();
    assert Frames(s.packets) == Frame(s.packets[0]) + Frames([]);
    assert Frames(s.packets) == [STOP, 0];
    assert stream[at] == STOP;
    assert stream[..at] == [STOP, 0] + Begun(s);
  }

  /** In one chunk it yields nothing, in two the empty packet. */
  lemma APacketIsLost()
    ensures exists chunks :: Flatten(chunks) == LossyStream() && Delivers(chunks, [])
    ensures exists chunks :: Flatten(chunks) == LossyStream() && Delivers(chunks, [Packet(STOP, [])])
  {
    hide *;
    var at, s := LossyStreamIsRejected();
    var stream := LossyStream();
    OneChunkLosesEverything(stream, at, s);
    BadByteIsInside(stream, at, s);
    CuttingBeforeTheByteLosesNothing(stream, at, s);
  }

  lemma BadByteIsInside(stream: seq<Byte>, at: nat, s: Reading)
    requires RejectsAt(stream, at, s)
    ensures at < |stream|
  {
  }

  lemma ChunksSoFar(chunks: seq<seq<Byte>>, k: nat)
    requires k < |chunks|
    ensures Flatten(chunks[..k + 1]) == Flatten(chunks[..k]) + chunks[k]
    ensures Flatten(chunks) == Flatten(chunks[..k]) + chunks[k] + Flatten(chunks[k + 1..])
  {
    hide Flatten;
    ChunkSlices(chunks, k);
    FlattenOne(chunks[k]);
    FlattenSplit(chunks[..k + 1], chunks[..k], [chunks[k]]);
    FlattenSplit(chunks, chunks[..k + 1], chunks[k + 1..]);
  }

  lemma ChunkSlices(chunks: seq<seq<Byte>>, k: nat)
    requires k < |chunks|
    ensures chunks[..k + 1] == chunks[..k] + [chunks[k]] && chunks == chunks[..k + 1] + chunks[k + 1..]
  {
  }

  lemma FlattenSplit(whole: seq<seq<Byte>>, a: seq<seq<Byte>>, b: seq<seq<Byte>>)
    requires whole == a + b
    ensures Flatten(whole) == Flatten(a) + Flatten(b)
  {
    FlattenConcat(a, b);
  }

  /** What a chunk completes does not depend on the packets completed before it. */
  lemma AdvancesAnyway(r: Reading, packets: seq<Packet>, bytes: seq<Byte>, completed: seq<Packet>, s: Reading)
    requires Advances(r, bytes, completed, s) && r.packets == []
    requires forall i :: 0 <= i < |packets| ==> Sendable(packets[i])
    ensures Advances(r.(packets := packets), bytes, completed, s.(packets := packets + completed))
  {
    hide Frames, Sendable;
    assert s.packets == completed;
    assert forall i :: 0 <= i < |packets + completed| ==>
        (packets + completed)[i] == if i < |packets| then packets[i] else completed[i - |packets|];
  }

  lemma ChunkStopsInside(chunks: seq<seq<Byte>>, k: nat, r: Reading, at: nat, completed: seq<Packet>, s: Reading)
    requires k < |chunks| && Reads(Flatten(chunks[..k]), r)
    requires StopsInside(r.(packets := []), chunks[k], at, completed, s)
    ensures RejectedInChunk(chunks, k, r.packets)
  {
    hide Frames, Begun;
    var before, whole := Flatten(chunks[..k]), Flatten(chunks);
    ChunksSoFar(chunks, k);
    AdvancesAnyway(r.(packets := []), r.packets, chunks[k][..at], completed, s);
    var reached := s.(packets := r.packets + completed);
    AdvancesReads(before, r, chunks[k][..at], completed, reached);
    assert whole[..|before| + at] == before + chunks[k][..at];
    assert whole[|before| + at] == chunks[k][at];
    assert RejectsAt(whole, |before| + at, reached);
  }

  lemma NothingAdvances(r: Reading)
    requires ValidReading(r) && r.packets == []
    ensures Advances(r, [], [], r)
  {
  }

  lemma ByteAdvances(r: Reading, bytes: seq<Byte>, completed: seq<Packet>, s: Reading, byte: Byte, n: Reading)
    requires Advances(r, bytes, completed, s) && ValidReading(n) && Lengthened(s, byte, n)
    ensures Advances(r, bytes + [byte], completed, n)
  {
    hide Frames;
    assert s.code.None? ==> Begun(s) == [];
    assert Begun(n) == Begun(s) + [byte];
    Assoc(Begun(r), bytes, [byte]);
    Assoc(Frames(completed), Begun(s), [byte]);
  }

  lemma CompletingAdvances(r: Reading, bytes: seq<Byte>, completed: seq<Packet>, s: Reading)
    requires Advances(r, bytes, completed, s) && s.code.Some?
    ensures var last := Packet(s.code.value, s.partial);
            Advances(r, bytes + [0], completed + [last], Reading(s.packets + [last], None, []))
  {
    var last := Packet(s.code.value, s.partial);
    FramesConcat(completed, [last]);
    assert Frames([last]) == Frame(last) + Frames([]);
    assert Begun(s) + [0] == Frame(last);
    assert Begun(r) + (bytes + [0]) == Begun(r) + bytes + [0];
    assert Frames(completed) + Begun(s) + [0] == Frames(completed) + (Begun(s) + [0]);
  }

  // ----- sending and receiving one packet

  datatype SendResult = Sent | NotSendable | WriteFailed

  /**
   * Accepts a packet exactly when the other end would read its frame back as that packet, and then puts the frame on
   * the wire; a wire that breaks before all of it is taken has taken as much as there was `room` for.
   */
  method WriteTo(packet: Packet, wire: seq<Byte>, room: nat) returns (r: SendResult, written: seq<Byte>)
    ensures r.NotSendable? <==> !Reads(Frame(packet), Reading([packet], None, []))
    ensures r.NotSendable? <==> |packet.message| > 1048576 || 0 in packet.message
    ensures r.NotSendable? ==> written == wire
    ensures r.Sent? ==> |packet.message| + 2 <= room && written == wire + ([packet.code] + packet.message + [0])
    ensures r.WriteFailed? ==>
              room < |packet.message| + 2 && written == wire + ([packet.code] + packet.message + [0])[..room]
  {
    ReadBackIffSendable(packet);
    if |packet.message| > MAX_PACKET_SIZE {
      return NotSendable, wire;
    }
    if 0 in packet.message {
      return NotSendable, wire;
    }
    var frame := [packet.code];
    frame := frame + packet.message;
    frame := frame + [0];
    r, written := PutOnWire(frame, wire, room);
  }

  /** Writes a whole frame, unless the wire breaks after `room` more bytes. */
  method PutOnWire(frame: seq<Byte>, wire: seq<Byte>, room: nat) returns (r: SendResult, written: seq<Byte>)
    ensures |frame| <= room ==> r == Sent && written == wire + frame
    ensures room < |frame| ==> r == WriteFailed && written == wire + frame[..room]
  {
    if room < |frame| {
      return WriteFailed, wire + frame[..room];
    }
    return Sent, wire + frame;
  }

  lemma ReadBackIffSendable(packet: Packet)
    ensures Reads(Frame(packet), Reading([packet], None, [])) <==> Sendable(packet)
  {
    var r := Reading([packet], None, []);
    assert Frames([packet]) == Frame(packet) + Frames([]);
    assert r.packets[0] == packet;
  }

  datatype ReceiveResult = Received(packet: Packet) | Ended | ClosedInside | Oversized | ReadFailed

  /**
   * Reads one packet from a blocking stream, byte by byte, taking nothing beyond its end. The read after `sound` bytes
   * fails, if the stream is read that far.
   */
  method ReadFrom(stream: seq<Byte>, sound: nat) returns (r: ReceiveResult, used: nat)
    ensures used <= |stream| && used <= sound
    ensures r.Received? ==> Reads(stream[..used], Reading([r.packet], None, []))
    ensures r.Ended? || r.ClosedInside? ==> used < sound
    ensures r.Ended? ==> stream == []
    ensures r.ReadFailed? ==> used == sound && exists s: Reading :: Reads(stream[..used], s) && s.packets == []
    ensures r.ClosedInside? ==> used == |stream| && exists s: Reading :: Reads(stream, s) && s.packets == [] && s.code.Some?
    ensures r.Oversized? ==> used > 0 && exists s: Reading :: RejectsAt(stream, used - 1, s) && s.packets == []
  {
    hide Frames, Begun, Sendable;
    var framer := new Framer();
    used := 0;
    NothingRead();
    assert stream[..0] == [];
    while used < |stream|
      invariant used <= |stream| && used <= sound && fresh(framer)
      invariant Reads(stream[..used], framer.After([]))
      invariant used > 0 <==> framer.pendingCode.Some?
      decreases |stream| - used
    {
      ghost var before := framer.After([]);
      if used == sound {
        return ReadFailed, used;
      }
      var byte := stream[used];
      var fed := framer.Feed([byte]);
      used := used + 1;
      assert stream[..used] == stream[..used - 1] + [byte];
      if fed.TooLarge? {
        ghost var at: nat, completed :| StopsInside(before, [byte], at, completed, framer.After(completed));
        assert [byte][..at] == [];
        AdvancesReads(stream[..used - 1], before, [], completed, framer.After(completed));
        assert stream[..used - 1] + [] == stream[..used - 1];
        ReadingIsUnique(stream[..used - 1], before, framer.After(completed));
        assert RejectsAt(stream, used - 1, before);
        return Oversized, used;
      }
      AdvancesReads(stream[..used - 1], before, [byte], fed.packets, framer.After(fed.packets));
      if fed.packets != [] {
        OneByteEndsOnePacket(before, byte, fed.packets, framer.After(fed.packets));
        assert framer.After(fed.packets) == Reading([fed.packets[0]], None, []);
        return Received(fed.packets[0]), used;
      }
      EveryByteCounts(before, byte, framer.After([]));
    }
    assert stream[..used] == stream;
    assert Reads(stream, framer.After([]));
    if used == sound {
      return ReadFailed, used;
    }
    if framer.IsIdle() {
      return Ended, used;
    }
    return ClosedInside, used;
  }

  lemma OneByteEndsOnePacket(r: Reading, byte: Byte, completed: seq<Packet>, s: Reading)
    requires ValidReading(r) && completed != [] && Advances(r, [byte], completed, s)
    ensures |completed| == 1 && s.code.None?
  {
    hide Frames;
    var beyond := Frames(completed[1..]) + Begun(s);
    var whole := Begun(r) + [byte];
    FirstFrame(completed, Begun(s));
    var at := |completed[0].message| + 1;
    assert whole[at] == 0;
    assert forall i :: 1 <= i < |Begun(r)| ==> whole[i] == r.partial[i - 1];
    assert at == |whole| - 1;
    assert beyond == [];
    FramesLength(completed[1..]);
  }

  lemma EveryByteCounts(r: Reading, byte: Byte, s: Reading)
    requires ValidReading(r) && Advances(r, [byte], [], s)
    ensures s.code.Some?
  {
    assert |Begun(s)| >= 1;
  }
}
