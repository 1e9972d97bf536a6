/** The whole path of a packet: framed and perhaps compressed, written through the shared
    writer in competition with other senders, encrypted from some packet on, received in
    part or in full, decrypted and decoded. */
module Transport {
  import opened Bytes
  import opened Sequences
  import opened Wrappers
  import opened Cfb8
  import opened Framing
  import opened WriterSlot
  import opened Connection

  /** What a peer makes of the first `n` bytes when it switches decryption on after the
      packet after which the server switched encryption on. */
  function Received(w: Wire, n: nat): seq<byte>
    requires n <= |w.accepted|
  {
    if n <= |w.clear| || w.switched.None? then w.accepted[..n]
    else
      var key := w.switched.value.0;
      w.accepted[..|w.clear|] + Decrypt(key.block, key.iv, w.accepted[|w.clear|..n])
  }

  /** However many bytes arrived, what is received is that many bytes of the packets the writer was
      taken for. */
  lemma ReceivedIsPlaintext(w: Wire, n: nat)
    requires Valid(w) && n <= |w.accepted|
    ensures n <= |Concat(w.takes)| && Received(w, n) == Concat(w.takes)[..n]
  {
    PeerRecovers(w, n);
    PlaintextIsPrefix(w);
    var plain := w.clear + w.secret;
    assert plain <= Concat(w.takes) && plain[..n] == Concat(w.takes)[..n];
  }

  /** The packets handed over are the frames of `packets`, each under its own setting. */
  ghost predicate Carried(z: Zlib, settings: Settings, sent: seq<Sent>, packets: seq<Packet>) {
    Packets(sent) == Frames(z, settings, packets)
  }

  lemma {:induction false} WireDecodes(w: Wire, z: Zlib, settings: Settings, packets: seq<Packet>, n: nat)
    requires Lawful(z) && Valid(w) && n <= |w.accepted|
    requires AllSendable(z, settings, packets) && Carried(z, settings, w.takes, packets)
    ensures DecodeAll(DecoderFor(z, settings), 0, Received(w, n))
         == (packets[..Whole(Frames(z, settings, packets), n)], Incomplete)
  {
    ReceivedIsPlaintext(w, n);
    DecodePrefix(z, settings, packets, n);
  }

  /** End to end. Take any run of the server: any interleaving of senders, any answers of the
      inner writer, any failure or cancellation, with or without encryption, and any change of
      the compression setting from packet to packet. Let the packets that its steps handed to the
      writer be the frames of `packets`. Cut the byte stream anywhere. The peer decodes exactly
      the packets whose frames lie within what arrived, and then waits. */
  lemma {:induction false} EndToEnd(steps: seq<Step>, z: Zlib, settings: Settings, packets: seq<Packet>, n: nat)
    requires Lawful(z) && Run(INITIAL, steps).Some? && n <= |Run(INITIAL, steps).value.wire.accepted|
    requires AllSendable(z, settings, packets) && Carried(z, settings, Handed(INITIAL, steps), packets)
    ensures DecodeAll(DecoderFor(z, settings), 0, Received(Run(INITIAL, steps).value.wire, n))
         == (packets[..Whole(Frames(z, settings, packets), n)], Incomplete)
  {
    FreshValid();
    RunInv(INITIAL, steps);
    TakesAreHanded(INITIAL, steps);
    assert INITIAL.wire.takes + Handed(INITIAL, steps) == Handed(INITIAL, steps);
    WireDecodes(Run(INITIAL, steps).value.wire, z, settings, packets, n);
  }

  // ---------------------------------------------------------------- from the requests alone

  /** The same setting for every packet. */
  function Always(compression: Option<Threshold>): Settings {
    i => compression
  }

  /** The bytes are the frame of some packet that the decoder accepts. */
  ghost predicate IsFrame(z: Zlib, compression: Option<Threshold>, bytes: seq<byte>) {
    exists p :: Sendable(z, compression, p) && bytes == FrameOf(z, compression, p)
  }

  ghost function FrameTest(z: Zlib, compression: Option<Threshold>): seq<byte> -> bool {
    (bytes: seq<byte>) => IsFrame(z, compression, bytes)
  }

  lemma {:induction false} PacketsOf(z: Zlib, compression: Option<Threshold>, sent: seq<Sent>)
    returns (packets: seq<Packet>)
    requires AllSent(sent, FrameTest(z, compression))
    ensures AllSendable(z, Always(compression), packets) && Carried(z, Always(compression), sent, packets)
    decreases |sent|
  {
    if sent == [] {
      packets := [];
    } else {
      var n := |sent| - 1;
      var before := PacketsOf(z, compression, sent[..n]);
      var p := PacketOf(z, compression, sent[n].packet);
      packets := before + [p];
      CarriedSnoc(z, Always(compression), sent[..n], before, sent[n], p);
      assert sent == sent[..n] + [sent[n]];
    }
  }

  lemma PacketOf(z: Zlib, compression: Option<Threshold>, bytes: seq<byte>) returns (p: Packet)
    requires FrameTest(z, compression)(bytes)
    ensures Sendable(z, compression, p) && bytes == FrameOf(z, compression, p)
  {
    p :| Sendable(z, compression, p) && bytes == FrameOf(z, compression, p);
  }

  lemma CarriedSnoc(z: Zlib, settings: Settings, sent: seq<Sent>, packets: seq<Packet>, last: Sent, p: Packet)
    requires AllSendable(z, settings, packets) && Carried(z, settings, sent, packets)
    requires Sendable(z, settings(|packets|), p) && last.packet == FrameOf(z, settings(|packets|), p)
    ensures AllSendable(z, settings, packets + [p]) && Carried(z, settings, sent + [last], packets + [p])
  {
    assert |Packets(sent)| == |sent| && |Frames(z, settings, packets)| == |packets|;
    assert Packets(sent + [last]) == Packets(sent) + [last.packet];
    assert Frames(z, settings, packets + [p]) == Frames(z, settings, packets) + [last.packet];
  }

  /** It is enough that everything ever queued or given to a sender is a frame: then the packets
      handed to the writer have a meaning, and the peer decodes a prefix of exactly these. */
  lemma EndToEndFromRequests(steps: seq<Step>, z: Zlib, compression: Option<Threshold>, n: nat)
    returns (packets: seq<Packet>)
    requires Lawful(z) && Run(INITIAL, steps).Some? && n <= |Run(INITIAL, steps).value.wire.accepted|
    requires AllRequests(steps, FrameTest(z, compression))
    ensures Carried(z, Always(compression), Handed(INITIAL, steps), packets)
    ensures DecodeAll(DecoderFor(z, Always(compression)), 0, Received(Run(INITIAL, steps).value.wire, n))
         == (packets[..Whole(Frames(z, Always(compression), packets), n)], Incomplete)
  {
    FreshValid();
    HandedWereRequested(INITIAL, steps, FrameTest(z, compression));
    packets := PacketsOf(z, compression, Handed(INITIAL, steps));
    EndToEnd(steps, z, Always(compression), packets, n);
  }
}
