/** The TCP packets of the client-server communication: how a message becomes bytes on the wire and how the
    receiving side finds the messages in the byte stream again. */
module Wire {
  import opened Bytes
  import opened Transport

  const TCPIP_BUFFSIZE := 16384
  const HEADER_SIZE := 9          // the packet length, the message length and the packet type

  datatype Packet = Packet(kind: byte, data: seq<byte>)

  function Header(kind: byte, total: nat): (h: seq<byte>)
    ensures |h| == HEADER_SIZE
  {
    EncodeU32(HEADER_SIZE + total) + EncodeU32(total) + [kind]
  }

  function Frame(p: Packet): seq<byte>
  {
    Header(p.kind, |p.data|) + p.data
  }

  /** `cTcpIpAddress::Send`. A message that fits the send buffer is assembled there; a longer one is sent fragment by
      fragment without assembling it. What leaves is the same in both cases. */
  method SendTo(frbu: FragmentedBuffer, kind: byte, total: nat) returns (wire: seq<byte>)
    requires frbu.Ready() && frbu.Position() + total == |frbu.Message()|
    modifies frbu`currentFragment, frbu`offsetInCurrent
    ensures wire == Frame(Packet(kind, old(frbu.Message()[frbu.Position()..])))
  {
    ghost var pos, message := frbu.Position(), frbu.Message();
    if HEADER_SIZE + total <= TCPIP_BUFFSIZE {
      var data := frbu.Copy(total);
      wire := Header(kind, total) + data;
      assert data == message[pos..];
    } else {
      var data := SendFragments(frbu);
      wire := Header(kind, total) + data;
    }
  }

  /** The long branch: every fragment from the pointer on is handed to the socket as it is. */
  method SendFragments(frbu: FragmentedBuffer) returns (sent: seq<byte>)
    requires frbu.Ready() && frbu.Position() <= |frbu.Message()|
    modifies frbu`currentFragment, frbu`offsetInCurrent
    ensures frbu.Positioned()
    ensures sent == old(frbu.Message()[frbu.Position()..])
  {
    sent := [];
    ghost var start, message := frbu.Position(), frbu.Message();
    assert Agrees(sent, message, start);
    hide Agrees;
    MessageLength(frbu.fragments);
    if frbu.fragments == [] { return; }
    while true
      invariant frbu.Positioned() && frbu.currentFragment < |frbu.fragments|
      invariant start + |sent| == frbu.Position()
      invariant Agrees(sent, message, start)
      decreases |frbu.fragments| - frbu.currentFragment
    {
      var rest := frbu.CurrentChunk(frbu.fragments[frbu.currentFragment].length - frbu.offsetInCurrent);
      AgreesMore(sent, rest, message, start);
      sent := sent + rest;
      frbu.offsetInCurrent := 0;
      frbu.currentFragment := frbu.currentFragment + 1;
      if frbu.currentFragment >= |frbu.fragments| { break; }
    }
    AgreesWhole(sent, message, start);
  }

  /** `Send` of cnetapi.cpp. Without a buffer only a header goes out; an empty buffer sends nothing at all. */
  method Send(frbu: FragmentedBuffer?, kind: byte) returns (wire: seq<byte>)
    requires frbu != null ==> FragmentsFit(frbu.fragments)
    modifies if frbu == null then {} else {frbu}
    ensures frbu == null ==> wire == Frame(Packet(kind, []))
    ensures frbu != null ==> frbu.fragments == old(frbu.fragments)
    ensures frbu != null ==>
      wire == if frbu.Message() == [] then [] else Frame(Packet(kind, frbu.Message()))
  {
    if frbu == null {
      var empty := new FragmentedBuffer([]);
      empty.ResetPointer();
      wire := SendTo(empty, kind, 0);
    } else {
      var total := frbu.TotalLength();
      frbu.ResetPointer();
      wire := [];
      var sent := 0;
      while sent < total
        invariant sent == 0 || sent == total
        invariant frbu.fragments == old(frbu.fragments)
        invariant sent == 0 ==> frbu.Ready() && frbu.Position() == 0 && wire == []
        invariant sent == total > 0 ==> wire == Frame(Packet(kind, frbu.Message()))
      {
        var part := SendTo(frbu, kind, total);
        assert frbu.Message()[0..] == frbu.Message();
        wire := wire + part;
        sent := sent + total;
      }
    }
  }

  /** A packet cut off the stream, with the message length its header announces. */
  datatype Stream = Incomplete | Received(packet: Packet, announced: nat, rest: seq<byte>)

  /** `ReceiveWork`: the length word says how many bytes belong to the packet; `Receive` then reads its header. The
      length is kept in a signed int. */
  function ReceiveOne(stream: seq<byte>): Stream
  {
    if |stream| < 4 then Incomplete
    else
      var size := DecodeU32(stream[..4]);
      if size >= 0x8000_0000 || size < HEADER_SIZE || |stream| < size then Incomplete
      else Received(Packet(stream[8], stream[HEADER_SIZE..size]), DecodeU32(stream[4..8]), stream[size..])
  }

  /** All complete packets at the beginning of the stream. */
  function ReceiveAll(stream: seq<byte>): seq<Packet>
    decreases |stream|
  {
    match ReceiveOne(stream)
    case Incomplete => []
    case Received(p, _, rest) => [p] + ReceiveAll(rest)
  }

  function Frames(packets: seq<Packet>): seq<byte>
  {
    if packets == [] then [] else Frame(packets[0]) + Frames(packets[1..])
  }

  ghost predicate Sendable(p: Packet)
  {
    HEADER_SIZE + |p.data| < 0x8000_0000
  }

  /** The first frame of a stream is cut off at its end, whatever follows, and announces the length of its data. */
  lemma FrameIsSelfDelimiting(p: Packet, rest: seq<byte>)
    requires Sendable(p)
    ensures ReceiveOne(Frame(p) + rest) == Received(p, |p.data|, rest)
  {
    var stream, size := Frame(p) + rest, HEADER_SIZE + |p.data|;
    assert stream[..4] == EncodeU32(size);
    assert stream[4..8] == EncodeU32(|p.data|);
    LengthWordRoundTrip(size);
    LengthWordRoundTrip(|p.data|);
    assert stream[HEADER_SIZE..size] == p.data;
    assert stream[size..] == rest;
  }

  /** As long as a byte of the frame is missing nothing is received. */
  lemma CutFrame(p: Packet, k: nat)
    requires Sendable(p) && k < |Frame(p)|
    ensures ReceiveOne(Frame(p)[..k]) == Incomplete
  {
    if k >= 4 {
      assert Frame(p)[..k][..4] == EncodeU32(HEADER_SIZE + |p.data|);
      LengthWordRoundTrip(HEADER_SIZE + |p.data|);
    }
  }

  /** Whatever is received is what the stream begins with. */
  lemma ReceivedIsBeginning(stream: seq<byte>)
    requires ReceiveOne(stream).Received?
    ensures var r := ReceiveOne(stream);
      9 + |r.packet.data| < 0x8000_0000 &&
      stream == EncodeU32(9 + |r.packet.data|) + EncodeU32(r.announced) + [r.packet.kind] + r.packet.data + r.rest
  {
    WordOfBytes(stream[..4]);
    WordOfBytes(stream[4..8]);
  }

  /** The bytes of a frame: its whole length and the length of its data, both with the lowest byte first, the packet type,
      the data. */
  lemma FrameLayout(p: Packet)
    requires Sendable(p)
    ensures var f, n := Frame(p), |p.data|;
      && |f| == 9 + n && f[8] == p.kind && f[9..] == p.data
      && 9 + n == f[0] as int + 0x100 * f[1] as int + 0x1_0000 * f[2] as int + 0x100_0000 * f[3] as int
      && n == f[4] as int + 0x100 * f[5] as int + 0x1_0000 * f[6] as int + 0x100_0000 * f[7] as int
  {
    LengthWordRoundTrip(HEADER_SIZE + |p.data|);
    LengthWordRoundTrip(|p.data|);
    var f := Frame(p);
    assert f[..4] == EncodeU32(HEADER_SIZE + |p.data|) && f[4..8] == EncodeU32(|p.data|);
  }

  lemma FramesStep(packets: seq<Packet>, n: nat)
    requires 0 < n <= |packets|
    ensures Frames(packets[..n]) == Frame(packets[0]) + Frames(packets[1..][..n - 1])
  {
    assert packets[..n][1..] == packets[1..][..n - 1];
  }

  /** From any beginning of a stream exactly those packets are received whose frames lie wholly in it. */
  lemma {:induction false} StreamPrefix(packets: seq<Packet>, k: nat, n: nat)
    requires (forall p :: p in packets ==> Sendable(p)) && n <= |packets| && |Frames(packets[..n])| <= k <= |Frames(packets)|
    requires n < |packets| ==> k < |Frames(packets[..n + 1])|
    ensures ReceiveAll(Frames(packets)[..k]) == packets[..n]
    decreases packets
  {
    hide Frame, Sendable, ReceiveOne;
    if packets == [] {
      NothingReceived();
    } else {
      var f, rest := Frame(packets[0]), packets[1..];
      if n == 0 {
        FramesStep(packets, 1);
        assert rest[..0] == [];
        assert Frames(packets)[..k] == f[..k];
        CutFrame(packets[0], k);
      } else {
        FramesStep(packets, n);
        if n < |packets| { FramesStep(packets, n + 1); }
        assert Frames(packets)[..k] == f + Frames(rest)[..k - |f|];
        FrameIsSelfDelimiting(packets[0], Frames(rest)[..k - |f|]);
        StreamPrefix(rest, k - |f|, n - 1);
        assert packets[..n] == [packets[0]] + rest[..n - 1];
      }
    }
  }

  lemma NothingReceived()
    ensures ReceiveAll([]) == []
  {
  }

  /** Packets sent one after another on a connection are received as the same packets in the same order. */
  lemma {:induction false} StreamRoundTrip(packets: seq<Packet>)
    requires forall p :: p in packets ==> Sendable(p)
    ensures ReceiveAll(Frames(packets)) == packets
  {
    if packets != [] {
      FrameIsSelfDelimiting(packets[0], Frames(packets[1..]));
      StreamRoundTrip(packets[1..]);
    }
  }

  /** `CopyData`: the first packet of a message creates the buffer, with the announced length. Nothing checks that the
      packet fits. */
  method CopyData(info: MessageInfo, announced: nat, data: seq<byte>)
    requires info.defaultFrame.Length == DEFAULT_RQ_FRAME_SIZE + 1
    requires if info.bufferType == BtNone then |data| <= announced else info.Collecting() && info.offset + |data| <= info.total
    modifies info, info.buffer, info.defaultFrame
    ensures info.Collecting()
    ensures if old(info.bufferType) == BtNone then info.Received() == data && info.total == announced
            else info.Received() == old(info.Received()) + data && info.total == old(info.total)
  {
    if info.bufferType == BtNone {
      info.CreateBuffer(announced);
    }
    ghost var before := info.Received();
    info.AddData(data);
    assert before == [] ==> before + data == data;
  }

  /** From one end of the connection to the other: a message in fragments is sent, cut off the stream and collected. The
      receiver finds it complete and holds exactly the message; what follows in the stream is untouched. */
  method Deliver(frbu: FragmentedBuffer, kind: byte, info: MessageInfo, behind: seq<byte>) returns (received: byte, rest: seq<byte>)
    requires FragmentsFit(frbu.fragments) && frbu.Message() != [] && Sendable(Packet(kind, frbu.Message()))
    requires info.bufferType == BtNone && info.defaultFrame.Length == DEFAULT_RQ_FRAME_SIZE + 1
    modifies frbu, info, info.buffer, info.defaultFrame
    ensures frbu.fragments == old(frbu.fragments)
    ensures info.Collecting() && info.HasAll() && info.Received() == frbu.Message()
    ensures received == kind && rest == behind
  {
    var wire := Send(frbu, kind);
    ghost var message := frbu.Message();
    FrameIsSelfDelimiting(Packet(kind, message), behind);
    var stream := ReceiveOne(wire + behind);
    CopyData(info, stream.announced, stream.packet.data);
    received, rest := stream.packet.kind, stream.rest;
  }
}
