/** The shared writer of a connection before play.

    The writer sits in a mutex-guarded slot. A sender takes it out of the slot while holding
    the lock, writes one packet, and puts it back; a sender that fails or is cancelled drops
    it. The lock is held exactly while the slot is `Taken`, so the steps below, each of which
    needs the lock or the taken writer, interleave freely otherwise. One offered byte is one
    step, so a sender can be cancelled after any byte.

    `accepted` is what the inner writer accepted. The fields `takes`, `done`, `cut`, `clear`,
    `secret` and `switched` record history and guide no step. */
module WriterSlot {
  import opened Bytes
  import opened Sequences
  import opened Wrappers
  import opened Cfb8
  import opened StreamCipher

  /** A session key fixes the block function and the initial register. */
  datatype Key = Key(block: BlockFunction, iv: Register)

  datatype Mode = Plain | Cipher(key: Key, register: Register, held: Option<byte>)

  datatype Slot =
    | Present(mode: Mode)
    | Taken(owner: nat, packet: seq<byte>, sent: nat, mode: Mode)
    | Gone

  /** A packet and the sender that took the writer for it. */
  datatype Sent = Sent(owner: nat, packet: seq<byte>)

  /** `takes` lists every packet the writer was taken for and `done` those written and flushed in
      full; `cut` is the part of the last one that was written when its writer was dropped. */
  datatype Wire = Wire(
    slot: Slot,
    accepted: seq<byte>,
    takes: seq<Sent>,
    done: seq<Sent>,
    cut: seq<byte>,
    clear: seq<byte>,
    secret: seq<byte>,
    switched: Option<(Key, nat)>)

  const FRESH := Wire(Present(Plain), [], [], [], [], [], [], None)

  // ---------------------------------------------------------------- steps

  /** The lock is acquired and the slot holds the writer. */
  function Take(w: Wire, owner: nat, packet: seq<byte>): Wire
    requires w.slot.Present?
  {
    w.(slot := Taken(owner, packet, 0, w.slot.mode), takes := w.takes + [Sent(owner, packet)])
  }

  /** The writer future is dropped, on failure or cancellation, and the writer with it. */
  function Abandon(w: Wire): Wire
    requires w.slot.Taken? && w.slot.sent <= |w.slot.packet|
  {
    w.(slot := Gone, cut := w.slot.packet[..w.slot.sent])
  }

  /** The next byte for the inner writer, and the writer's state once it is encrypted. */
  function Prepare(mode: Mode, b: byte): (byte, Mode) {
    match mode
    case Plain => (b, Plain)
    case Cipher(key, register, held) =>
      var (out, next) := NextOut(key.block, register, held, b);
      (out, Cipher(key, next, None))
  }

  function Hold(mode: Mode, out: byte): Mode {
    if mode.Plain? then Plain else mode.(held := Some(out))
  }

  /** The writer offers one byte. An inner writer that takes none of a nonempty buffer ends a
      plain `write_all` with an error; under encryption it breaks the encryptor's contract. */
  function Offer(w: Wire, answer: Answer): Wire
    requires w.slot.Taken? && w.slot.sent < |w.slot.packet|
    requires answer.AcceptNone? ==> w.slot.mode.Plain?
  {
    var Taken(owner, packet, sent, mode) := w.slot;
    var b := packet[sent];
    var (out, next) := Prepare(mode, b);
    match answer
    case Accept =>
      w.(slot := Taken(owner, packet, sent + 1, next),
         accepted := w.accepted + [out],
         clear := if mode.Plain? then w.clear + [b] else w.clear,
         secret := if mode.Plain? then w.secret else w.secret + [b])
    case Refuse => Abandon(w)
    case AcceptNone => Abandon(w)
    case NotReady => w.(slot := Taken(owner, packet, sent, Hold(next, out)))
  }

  /** All bytes are written and flushed: the writer goes back into the slot. */
  function PutBack(w: Wire): Wire
    requires w.slot.Taken? && w.slot.sent == |w.slot.packet|
  {
    w.(slot := Present(w.slot.mode), done := w.done + [Sent(w.slot.owner, w.slot.packet)])
  }

  /** `release_network_writer`: empties the slot under the lock. */
  function Release(w: Wire): Wire
    requires !w.slot.Taken?
  {
    w.(slot := Gone)
  }

  /** `set_encryption` under the lock. A second call panics and changes nothing. */
  function SwitchOn(w: Wire, key: Key): Wire
    requires w.slot.Present? && w.slot.mode.Plain?
  {
    w.(slot := Present(Cipher(key, key.iv, None)), switched := Some((key, |w.done|)))
  }

  /** What an answer of the inner writer means: one byte more on the wire and in the packet, nothing
      on the wire and the same byte next time, or the end of this writer. */
  lemma OfferMeans(w: Wire, answer: Answer)
    requires w.slot.Taken? && w.slot.sent < |w.slot.packet|
    requires answer.AcceptNone? ==> w.slot.mode.Plain?
    ensures var t := Offer(w, answer);
            && t.takes == w.takes && t.done == w.done && t.switched == w.switched
            && |t.accepted| == |w.accepted| + (if answer.Accept? then 1 else 0) && w.accepted <= t.accepted
            && (answer.Refuse? || answer.AcceptNone? ==> t.slot.Gone?)
            && (answer.Accept? || answer.NotReady? ==>
                  && t.slot.Taken? && t.slot.owner == w.slot.owner && t.slot.packet == w.slot.packet
                  && t.slot.sent == w.slot.sent + (if answer.Accept? then 1 else 0))
            && (answer.Accept? && w.slot.mode.Plain? ==> t.accepted == w.accepted + [w.slot.packet[w.slot.sent]])
            && (t.slot.Taken? && t.slot.mode.Cipher? ==> (t.slot.mode.held.Some? <==> answer.NotReady?))
  {
  }

  /** Waiting does not show: however often the inner writer is not ready, the byte it accepts in the
      end and everything after it are the same. */
  lemma WaitingDoesNotShow(w: Wire, answer: Answer)
    requires w.slot.Taken? && w.slot.sent < |w.slot.packet|
    requires answer.AcceptNone? ==> w.slot.mode.Plain?
    ensures Offer(Offer(w, NotReady), answer) == Offer(w, answer)
  {
  }

  // ---------------------------------------------------------------- the invariant

  function Packets(sent: seq<Sent>): seq<seq<byte>> {
    seq(|sent|, i requires 0 <= i < |sent| => sent[i].packet)
  }

  /** The packets, one after the other. */
  function Concat(sent: seq<Sent>): seq<byte> {
    Flatten(Packets(sent))
  }

  /** The packet bytes on the wire after the last whole packet. */
  function Partial(w: Wire): seq<byte> {
    match w.slot
    case Present(_) => []
    case Taken(_, packet, sent, _) => if sent <= |packet| then packet[..sent] else packet
    case Gone => w.cut
  }

  /** The register and the held byte match what was encrypted so far. */
  ghost predicate InStep(mode: Mode, secret: seq<byte>, next: seq<byte>) {
    match mode
    case Plain => secret == []
    case Cipher(key, register, held) =>
      var at := RegisterAfter(key.iv, Encrypt(key.block, key.iv, secret));
      match held
      case None => register == at
      case Some(b) =>
        && next != []
        && b == Xor(next[0], key.block(at))
        && register == Shift(at, b)
  }

  ghost predicate SlotInStep(w: Wire) {
    match w.slot
    case Present(mode) =>
      && InStep(mode, w.secret, [])
      && mode.Plain? == w.switched.None?
      && (mode.Cipher? && w.switched.Some? ==> mode.key == w.switched.value.0)
    case Taken(_, packet, sent, mode) =>
      && sent <= |packet|
      && InStep(mode, w.secret, packet[sent..])
      && mode.Plain? == w.switched.None?
      && (mode.Cipher? && w.switched.Some? ==> mode.key == w.switched.value.0)
    case Gone => true
  }

  /** What the peer received: the clear bytes, then the encryption of the secret ones. */
  ghost predicate Carries(w: Wire) {
    match w.switched
    case None => w.secret == [] && w.accepted == w.clear
    case Some((key, at)) => w.accepted == w.clear + Encrypt(key.block, key.iv, w.secret)
  }

  /** Every packet the writer was taken for was written in full, except for at most one, the last:
      it is being written, or its writer was dropped and `cut` is the part that was written. */
  ghost predicate TakesValid(w: Wire) {
    match w.slot
    case Present(_) => w.takes == w.done
    case Taken(owner, packet, _, _) => w.takes == w.done + [Sent(owner, packet)]
    case Gone =>
      || (w.takes == w.done && w.cut == [])
      || (exists last :: w.takes == w.done + [last] && w.cut <= last.packet)
  }

  ghost predicate Valid(w: Wire) {
    // Whole packets, then at most one that was cut.
    && w.clear + w.secret == Concat(w.done) + Partial(w)
    // Encryption starts between two packets.
    && (w.switched.Some? ==>
          w.switched.value.1 <= |w.done| && w.clear == Concat(w.done[..w.switched.value.1]))
    && Carries(w)
    && SlotInStep(w)
    && (!w.slot.Gone? ==> w.cut == [])
    && TakesValid(w)
  }

  lemma FreshValid()
    ensures Valid(FRESH)
  {
  }

  lemma ConcatPrefixKept(done: seq<Sent>, more: Sent, n: nat)
    requires n <= |done|
    ensures (done + [more])[..n] == done[..n]
    ensures Concat(done + [more]) == Concat(done) + more.packet
  {
    assert Packets(done + [more]) == Packets(done) + [more.packet];
    FlattenSnoc(Packets(done), more.packet);
  }

  lemma TakeValid(w: Wire, owner: nat, packet: seq<byte>)
    requires Valid(w) && w.slot.Present?
    ensures Valid(Take(w, owner, packet))
  {
  }

  lemma AbandonValid(w: Wire)
    requires Valid(w) && w.slot.Taken?
    ensures Valid(Abandon(w))
  {
    var last := Sent(w.slot.owner, w.slot.packet);
    assert w.takes == w.done + [last] && Abandon(w).cut <= last.packet;
  }

  lemma ReleaseValid(w: Wire)
    requires Valid(w) && !w.slot.Taken?
    ensures Valid(Release(w))
  {
  }

  lemma PutBackValid(w: Wire)
    requires Valid(w) && w.slot.Taken? && w.slot.sent == |w.slot.packet|
    ensures Valid(PutBack(w))
  {
    var sent := Sent(w.slot.owner, w.slot.packet);
    ConcatPrefixKept(w.done, sent, if w.switched.Some? then w.switched.value.1 else 0);
    assert w.slot.packet[..w.slot.sent] == w.slot.packet;
    assert Concat(PutBack(w).done) + [] == Concat(w.done) + w.slot.packet;
  }

  lemma SwitchOnValid(w: Wire, key: Key)
    requires Valid(w) && w.slot.Present? && w.slot.mode.Plain?
    ensures Valid(SwitchOn(w, key))
  {
    assert w.done[..|w.done|] == w.done;
    assert w.clear == w.clear + w.secret;
    assert Concat(w.done) + [] == Concat(w.done);
  }

  /** Offering the byte `b` that comes next keeps register, held byte and ciphertext in step. */
  lemma {:induction false} PrepareInStep(mode: Mode, secret: seq<byte>, b: byte, tail: seq<byte>)
    requires mode.Cipher? && InStep(mode, secret, [b] + tail)
    ensures var (out, next) := Prepare(mode, b);
            && next.Cipher? && next.key == mode.key
            && Encrypt(mode.key.block, mode.key.iv, secret + [b])
               == Encrypt(mode.key.block, mode.key.iv, secret) + [out]
            && InStep(next, secret + [b], tail)
            && InStep(Hold(next, out), secret, [b] + tail)
  {
    var key := mode.key;
    var at := RegisterAfter(key.iv, Encrypt(key.block, key.iv, secret));
    FeedOne(key.block, key.iv, secret, at, b);
  }

  lemma PacketStep(packet: seq<byte>, sent: nat)
    requires sent < |packet|
    ensures packet[..sent + 1] == packet[..sent] + [packet[sent]]
    ensures packet[sent..] == [packet[sent]] + packet[sent + 1..]
  {
  }

  lemma OfferPlainValid(w: Wire)
    requires Valid(w) && w.slot.Taken? && w.slot.sent < |w.slot.packet| && w.slot.mode.Plain?
    ensures Valid(Offer(w, Accept)) && Valid(Offer(w, NotReady))
  {
    PacketStep(w.slot.packet, w.slot.sent);
    var b := [w.slot.packet[w.slot.sent]];
    assert w.clear + b + w.secret == w.clear + w.secret + b;
    assert Concat(w.done) + (Partial(w) + b) == Concat(w.done) + Partial(w) + b;
  }

  lemma OfferCipherValid(w: Wire)
    requires Valid(w) && w.slot.Taken? && w.slot.sent < |w.slot.packet| && w.slot.mode.Cipher?
    ensures Valid(Offer(w, Accept)) && Valid(Offer(w, NotReady))
  {
    var Taken(owner, packet, sent, mode) := w.slot;
    PacketStep(packet, sent);
    PrepareInStep(mode, w.secret, packet[sent], packet[sent + 1..]);
    var b := [packet[sent]];
    assert w.clear + (w.secret + b) == w.clear + w.secret + b;
    assert Concat(w.done) + (Partial(w) + b) == Concat(w.done) + Partial(w) + b;
    var (out, next) := Prepare(mode, packet[sent]);
    var cipher := Encrypt(mode.key.block, mode.key.iv, w.secret);
    assert w.clear + (cipher + [out]) == w.clear + cipher + [out];
  }

  lemma OfferValid(w: Wire, answer: Answer)
    requires Valid(w) && w.slot.Taken? && w.slot.sent < |w.slot.packet|
    requires answer.AcceptNone? ==> w.slot.mode.Plain?
    ensures Valid(Offer(w, answer))
  {
    if answer.Refuse? || answer.AcceptNone? {
      AbandonValid(w);
    } else if w.slot.mode.Plain? {
      OfferPlainValid(w);
    } else {
      OfferCipherValid(w);
    }
  }

  /** The plaintext is a prefix of the packets the writer was taken for. */
  lemma PlaintextIsPrefix(w: Wire)
    requires Valid(w)
    ensures Concat(w.done) + Partial(w) <= Concat(w.takes)
  {
    if w.takes == w.done {
      assert Concat(w.done) + [] == Concat(w.done);
    } else {
      var last := w.takes[|w.done|];
      assert w.takes == w.done + [last] && Partial(w) <= last.packet;
      ConcatPrefixKept(w.done, last, 0);
    }
  }

  // ---------------------------------------------------------------- what the peer can read

  /** A peer that starts decrypting where the server started encrypting recovers, from any
      number of received bytes, exactly that many bytes of the plaintext. */
  lemma PeerRecovers(w: Wire, n: nat)
    requires Valid(w) && n <= |w.accepted|
    ensures |w.clear| + |w.secret| == |w.accepted|
    ensures n <= |w.clear| ==> w.accepted[..n] == (w.clear + w.secret)[..n]
    ensures n > |w.clear| ==>
              && w.switched.Some?
              && var key := w.switched.value.0;
                 w.accepted[..|w.clear|] + Decrypt(key.block, key.iv, w.accepted[|w.clear|..n])
                 == (w.clear + w.secret)[..n]
  {
    if w.switched.Some? && n > |w.clear| {
      SecretRecovers(w, n);
    }
  }

  lemma SecretRecovers(w: Wire, n: nat)
    requires Carries(w) && w.switched.Some? && |w.clear| < n <= |w.accepted|
    ensures var key := w.switched.value.0;
            w.accepted[..|w.clear|] + Decrypt(key.block, key.iv, w.accepted[|w.clear|..n])
            == (w.clear + w.secret)[..n]
  {
    var key, m := w.switched.value.0, n - |w.clear|;
    var cipher := Encrypt(key.block, key.iv, w.secret);
    assert w.accepted[..|w.clear|] == w.clear && w.accepted[|w.clear|..n] == cipher[..m];
    EncryptPrefix(key.block, key.iv, w.secret, m);
    DecryptEncrypt(key.block, key.iv, w.secret[..m]);
    assert (w.clear + w.secret)[..n] == w.clear + w.secret[..m];
  }
}
