/** The encrypting writer and the decrypting reader of a connection.

    An inner writer is a finite sequence of answers to one-byte writes; when the answers run
    out the inner writer stays pending, so the caller's future can only be dropped. An inner
    reader is a finite sequence of answers to reads. All theorems hold for every such
    sequence. */
module StreamCipher {
  import opened Bytes
  import opened Sequences
  import opened Wrappers
  import opened Cfb8

  /** What the inner writer answers to a one-byte write:
      `Poll::Pending`, `Ok(1)`, `Ok(0)` or an error. */
  datatype Answer = NotReady | Accept | AcceptNone | Refuse

  /** The result of one `poll_write`. */
  datatype WritePoll = Pending | Ready(count: nat) | Failed

  /** The end of one `write_all`: finished, the inner writer failed, the inner writer took no
      byte, or the future was dropped while still pending. */
  datatype WriteEnd = Done | Broken | WroteZero | Dropped

  datatype InnerWriter = InnerWriter(answers: seq<Answer>, delivered: seq<byte>) {

    function Next(): Answer {
      if answers == [] then NotReady else answers[0]
    }

    function After(b: byte): InnerWriter {
      InnerWriter(
        if answers == [] then [] else answers[1..],
        if Next().Accept? then delivered + [b] else delivered)
    }
  }

  /** No byte is swallowed: neither `Ok(0)` nor an error is among the answers. */
  ghost predicate Lossless(answers: seq<Answer>) {
    forall i :: 0 <= i < |answers| ==> answers[i].NotReady? || answers[i].Accept?
  }

  /** The inner writer failed at some point after the first answers. */
  ghost predicate RefusedSince(before: seq<Answer>, now: seq<Answer>) {
    exists i :: |before| <= i < |now| && now[i].Refuse?
  }

  lemma RefusedAppend(before: seq<Answer>, now: seq<Answer>, answer: Answer)
    requires |before| <= |now|
    ensures RefusedSince(before, now + [answer]) <==> RefusedSince(before, now) || answer.Refuse?
  {
    var longer := now + [answer];
    assert longer[|now|] == answer && forall i :: 0 <= i < |now| ==> longer[i] == now[i];
    if RefusedSince(before, now) {
      var i :| |before| <= i < |now| && now[i].Refuse?;
      assert longer[i].Refuse?;
    }
  }

  lemma RefusedAcross(start: seq<Answer>, middle: seq<Answer>, now: seq<Answer>)
    requires start <= middle <= now
    ensures RefusedSince(start, now) <==> RefusedSince(start, middle) || RefusedSince(middle, now)
  {
    if RefusedSince(start, middle) {
      var i :| |start| <= i < |middle| && middle[i].Refuse?;
      assert now[i].Refuse?;
    }
    if RefusedSince(start, now) {
      var i :| |start| <= i < |now| && now[i].Refuse?;
      assert i < |middle| ==> middle[i].Refuse?;
    }
  }

  lemma LosslessAppend(answers: seq<Answer>, answer: Answer)
    ensures Lossless(answers + [answer])
            <==> Lossless(answers) && (answer.NotReady? || answer.Accept?)
  {
    var longer := answers + [answer];
    assert longer[|answers|] == answer;
    assert forall i :: 0 <= i < |answers| ==> longer[i] == answers[i];
  }

  /** Feeding one more byte extends the ciphertext by one byte and shifts the register once. */
  lemma {:induction false} FeedOne(block: BlockFunction, iv: Register, fed: seq<byte>, register: Register, b: byte)
    requires register == RegisterAfter(iv, Encrypt(block, iv, fed))
    ensures var c := Xor(b, block(register));
            && Encrypt(block, iv, fed + [b]) == Encrypt(block, iv, fed) + [c]
            && Shift(register, c) == RegisterAfter(iv, Encrypt(block, iv, fed + [b]))
  {
    EncryptAppend(block, iv, fed, [b]);
    EncryptOne(block, register, b);
    RegisterAfterAppend(iv, Encrypt(block, iv, fed), Encrypt(block, register, [b]));
  }

  /** The encrypted byte to offer next, and the register then: a byte held back from an earlier
      poll, or else `b`, which is encrypted now. */
  function NextOut(block: BlockFunction, register: Register, held: Option<byte>, b: byte): (byte, Register) {
    match held
    case Some(out) => (out, register)
    case None =>
      var out := Xor(b, block(register));
      (out, Shift(register, out))
  }

  class StreamEncryptor {
    const block: BlockFunction
    const iv: Register
    /** All the answers the inner writer will ever give. */
    ghost const schedule: seq<Answer>
    var register: Register
    /** The last byte that was encrypted while the inner writer was not ready. */
    var held: Option<byte>
    var inner: InnerWriter
    /** The answers given so far. */
    ghost var given: seq<Answer>
    /** Every plaintext byte given to the cipher, in order. */
    ghost var fed: seq<byte>
    /** How many encrypted bytes the inner writer swallowed with `Ok(0)` or an error. */
    ghost var lost: nat

    ghost function Held(): seq<byte>
      reads this
    {
      if held.Some? then [held.value] else []
    }

    /** Each fed byte went through the cipher once and was delivered, is held, or was lost;
        while none is lost, the delivered bytes and the held one are the encryption of the
        fed bytes. A byte is lost exactly when an answer swallowed it. */
    ghost predicate Valid()
      reads this
    {
      && given + inner.answers == schedule
      && register == RegisterAfter(iv, Encrypt(block, iv, fed))
      && |fed| == |inner.delivered| + |Held()| + lost
      && (lost == 0 <==> Lossless(given))
      && (lost == 0 ==> inner.delivered + Held() == Encrypt(block, iv, fed))
    }

    constructor (block: BlockFunction, iv: Register, answers: seq<Answer>)
      ensures Valid() && this.block == block && this.iv == iv && schedule == answers
      ensures inner == InnerWriter(answers, []) && held.None? && lost == 0 && fed == []
    {
      this.block := block;
      this.iv := iv;
      schedule := answers;
      register := iv;
      held := None;
      inner := InnerWriter(answers, []);
      given := [];
      fed := [];
      lost := 0;
    }

    ghost function HeldCount(): nat
      reads this
    {
      if held.Some? then 1 else 0
    }

    /** Since the plaintext `base`, exactly the first `sent` bytes of `data` were accepted,
        and a held byte is the encryption of the one after them. */
    ghost predicate Progress(base: seq<byte>, data: seq<byte>, sent: nat)
      reads this
    {
      && sent + HeldCount() <= |data|
      && fed == base + data[..sent + HeldCount()]
    }

    /** A poll failed exactly when an answer to it was an error; otherwise the inner writer accepted
        as many bytes as the poll reported. */
    ghost predicate Answered(before: seq<Answer>, delivered: seq<byte>, r: WritePoll)
      reads this
    {
      && before <= given
      && (r.Failed? <==> RefusedSince(before, given))
      && (!r.Failed? ==> |inner.delivered| == |delivered| + if r.Ready? then r.count else 0)
    }

    /** The byte to offer next: the one held back from an earlier poll, or `buf[i]` encrypted. */
    method NextByte(buf: seq<byte>, i: nat, ghost base: seq<byte>) returns (out: byte)
      requires Valid() && i < |buf|
      requires lost == 0 ==> Progress(base, buf, i)
      modifies this`register, this`fed
      ensures (out, register) == NextOut(block, old(register), held, buf[i])
      ensures register == RegisterAfter(iv, Encrypt(block, iv, fed))
      ensures |fed| == |inner.delivered| + 1 + lost
      ensures lost == 0 ==> fed == base + buf[..i + 1]
      ensures lost == 0 ==> inner.delivered + [out] == Encrypt(block, iv, fed)
    {
      if held.Some? {
        out := held.value;
      } else {
        out := Xor(buf[i], block(register));
        FeedOne(block, iv, fed, register, buf[i]);
        register := Shift(register, out);
        fed := fed + [buf[i]];
      }
    }

    /** One round of the `poll_write` loop: offer the next encrypted byte to the inner writer. */
    method OfferByte(buf: seq<byte>, i: nat, ghost base: seq<byte>) returns (answer: Answer)
      requires Valid() && i < |buf|
      requires lost == 0 ==> Progress(base, buf, i)
      modifies this
      ensures Valid()
      ensures lost == old(lost) + (if answer.AcceptNone? || answer.Refuse? then 1 else 0)
      ensures |inner.answers| == if old(inner.answers) == [] then 0 else |old(inner.answers)| - 1
      ensures old(inner.answers) == [] ==> answer.NotReady?
      ensures held.Some? <==> answer.NotReady?
      ensures old(given) <= given && (RefusedSince(old(given), given) <==> answer.Refuse?)
      ensures |inner.delivered| == |old(inner.delivered)| + if answer.Accept? then 1 else 0
      ensures lost == 0 ==> Progress(base, buf, if answer.Accept? then i + 1 else i)
      ensures answer.Refuse? && lost == 1 ==>
                inner.delivered <= Encrypt(block, iv, fed) && fed == base + buf[..i + 1]
    {
      var out := NextByte(buf, i, base);
      answer := Offer(out);
    }

    /** Hands an encrypted byte to the inner writer and keeps it when that is not ready. */
    method Offer(out: byte) returns (answer: Answer)
      requires given + inner.answers == schedule
      requires register == RegisterAfter(iv, Encrypt(block, iv, fed))
      requires |fed| == |inner.delivered| + 1 + lost
      requires lost == 0 <==> Lossless(given)
      requires lost == 0 ==> inner.delivered + [out] == Encrypt(block, iv, fed)
      modifies this`inner, this`given, this`held, this`lost
      ensures Valid()
      ensures lost == old(lost) + (if answer.AcceptNone? || answer.Refuse? then 1 else 0)
      ensures |inner.answers| == if old(inner.answers) == [] then 0 else |old(inner.answers)| - 1
      ensures old(inner.answers) == [] ==> answer.NotReady?
      ensures held.Some? <==> answer.NotReady?
      ensures old(given) <= given && (RefusedSince(old(given), given) <==> answer.Refuse?)
      ensures |inner.delivered| == |old(inner.delivered)| + if answer.Accept? then 1 else 0
      ensures answer.Refuse? && lost == 1 ==> inner.delivered <= Encrypt(block, iv, fed)
    {
      answer := inner.Next();
      if inner.answers != [] {
        LosslessAppend(given, answer);
        assert given + inner.answers == given + [answer] + inner.answers[1..];
        given := given + [answer];
        RefusedAppend(old(given), old(given), answer);
      }
      inner := inner.After(out);
      if answer.NotReady? {
        held := Some(out);
      } else {
        held := None;
        if !answer.Accept? {
          lost := lost + 1;
        }
      }
    }

    /** One poll. The caller presents again the bytes that were not accepted, so a held
        byte is the encryption of the first byte of `buf`. */
    method PollWrite(buf: seq<byte>, ghost base: seq<byte>) returns (r: WritePoll)
      requires Valid()
      requires lost == 0 && buf != [] ==> Progress(base, buf, 0)
      modifies this
      ensures Valid() && lost >= old(lost) && Answered(old(given), old(inner.delivered), r)
      ensures |inner.answers| <= |old(inner.answers)|
      ensures buf != [] && old(inner.answers) != [] ==> |inner.answers| < |old(inner.answers)|
      ensures r.Ready? ==> r.count <= |buf|
      ensures r.Ready? && (r.count == 0 || r.count == |buf|) && buf != [] ==> held.None?
      ensures r.Ready? && lost == 0 && buf != [] ==>
                && r.count > 0
                && Progress(base, buf, r.count)
                && (held.None? <==> r.count == |buf|)
      ensures r.Pending? ==> held.Some? && buf != []
      ensures r.Failed? ==> held.None?
      ensures r.Pending? && lost == 0 ==> Progress(base, buf, 0)
      ensures r.Failed? ==> lost > old(lost)
      ensures r.Failed? && lost == 1 ==>
                inner.delivered <= Encrypt(block, iv, fed) && fed <= base + buf
    {
      var total := 0;
      var i := 0;
      while i < |buf|
        invariant 0 <= i <= |buf| && total <= i
        invariant Valid() && i - total == lost - old(lost)
        invariant i > 0 ==> held.None?
        invariant |inner.answers| <= |old(inner.answers)|
        invariant i > 0 && old(inner.answers) != [] ==> |inner.answers| < |old(inner.answers)|
        invariant lost == 0 && buf != [] ==> Progress(base, buf, i)
        invariant Answered(old(given), old(inner.delivered), Ready(total))
      {
        ghost var before := given;
        var answer := OfferByte(buf, i, base);
        RefusedAcross(old(given), before, given);
        match answer {
          case NotReady =>
            if total == 0 {
              return Pending;
            }
            return Ready(total);
          case Accept =>
            total := total + 1;
          case AcceptNone =>
          case Refuse =>
            return Failed;
        }
        i := i + 1;
      }
      return Ready(total);
    }

    /** Offers the part of `data` that is still to be sent, once. */
    method PollRest(data: seq<byte>, sent: nat, ghost base: seq<byte>) returns (r: WritePoll)
      requires Valid() && sent < |data|
      requires lost == 0 ==> Progress(base, data, sent)
      modifies this
      ensures Valid() && lost >= old(lost) && Answered(old(given), old(inner.delivered), r)
      ensures |inner.answers| <= |old(inner.answers)|
      ensures old(inner.answers) != [] ==> |inner.answers| < |old(inner.answers)|
      ensures r.Ready? ==> sent + r.count <= |data|
      ensures r.Pending? ==> held.Some?
      ensures r.Failed? || (r.Ready? && (r.count == 0 || sent + r.count == |data|)) ==> held.None?
      ensures r.Ready? && lost == 0 ==> r.count > 0 && Progress(base, data, sent + r.count)
      ensures r.Pending? && lost == 0 ==> Progress(base, data, sent)
      ensures r.Failed? ==> lost > old(lost)
      ensures r.Failed? && lost == 1 ==>
                inner.delivered <= Encrypt(block, iv, fed) && fed <= base + data
    {
      PrefixGrows(base, data, sent, HeldCount());
      r := PollWrite(data[sent..], base + data[..sent]);
      if lost == 0 {
        PrefixGrows(base, data, sent, (if r.Ready? then r.count else 0) + HeldCount());
      }
      assert base + data[..sent] + data[sent..] == base + data;
    }

    /** Presents `data` until it is all accepted, as `write_all` does. `sent` counts the
        bytes of `data` that `poll_write` reported as written. */
    method WriteAll(data: seq<byte>) returns (end: WriteEnd, sent: nat)
      requires Valid() && held.None?
      modifies this
      ensures Valid() && sent <= |data| && lost >= old(lost)
      ensures lost == 0 ==> (end.Done? || end.Dropped?) && Progress(old(fed), data, sent)
      ensures end.Done? <==> sent == |data| && !end.Broken?
      ensures end.Dropped? ==> sent < |data| && inner.answers == []
      ensures end.Dropped? <==> held.Some?
      ensures end.Broken? <==> RefusedSince(old(given), given)
      ensures !end.Broken? ==> |inner.delivered| == |old(inner.delivered)| + sent
      ensures end.Broken? && lost == 1 ==>
                inner.delivered <= Encrypt(block, iv, fed) && fed <= old(fed) + data
    {
      sent := 0;
      while sent < |data|
        invariant Valid() && sent <= |data| && lost >= old(lost)
        invariant lost == 0 ==> Progress(old(fed), data, sent)
        invariant Answered(old(given), old(inner.delivered), Ready(sent)) && (sent == |data| ==> held.None?)
        decreases |data| - sent + |inner.answers|
      {
        ghost var before := given;
        var r := PollRest(data, sent, old(fed));
        RefusedAcross(old(given), before, given);
        match r {
          case Pending =>
            if inner.answers == [] {
              return Dropped, sent;
            }
          case Failed =>
            return Broken, sent;
          case Ready(count) =>
            if count == 0 {
              return WroteZero, sent;
            }
            sent := sent + count;
        }
      }
      return Done, sent;
    }
  }

  /** What the inner reader answers: not ready, an error, or some bytes (none at the end of
      the stream). A read takes as many of the bytes as fit. */
  datatype ReadAnswer = ReadNotReady | ReadError | Chunk(bytes: seq<byte>)

  datatype ReadPoll = ReadPending | ReadFailed | ReadReady

  /** Bounds how often the reader can still make progress. */
  ghost function Remaining(answers: seq<ReadAnswer>): nat {
    if answers == [] then 0
    else 1 + (if answers[0].Chunk? then |answers[0].bytes| else 0) + Remaining(answers[1..])
  }

  /** The bytes that the answers still hold, in order. */
  ghost function Incoming(answers: seq<ReadAnswer>): seq<byte> {
    if answers == [] then []
    else (if answers[0].Chunk? then answers[0].bytes else []) + Incoming(answers[1..])
  }

  /** How many bytes a reader gets before the end of the stream, which is an empty chunk, or an
      error. */
  ghost function Available(answers: seq<ReadAnswer>): nat {
    if answers == [] then 0
    else
      match answers[0]
      case ReadNotReady => Available(answers[1..])
      case ReadError => 0
      case Chunk(bytes) => if bytes == [] then 0 else |bytes| + Available(answers[1..])
  }

  /** What a poll with room in the buffer does to the bytes available. */
  ghost predicate Drawn(before: seq<ReadAnswer>, after: seq<ReadAnswer>, r: ReadPoll, count: nat) {
    && (r.ReadPending? ==> Available(after) == Available(before))
    && (r.ReadReady? && count > 0 ==> Available(before) == count + Available(after))
    && (r.ReadFailed? || (r.ReadReady? && count == 0) ==> Available(before) == 0)
  }

  /** The answers left when the first `n` bytes of the chunk in front were read. */
  function AfterChunk(answers: seq<ReadAnswer>, n: nat): seq<ReadAnswer>
    requires answers != [] && answers[0].Chunk? && n <= |answers[0].bytes|
  {
    if n == |answers[0].bytes| then answers[1..] else [Chunk(answers[0].bytes[n..])] + answers[1..]
  }

  lemma {:induction false} ChunkSplits(answers: seq<ReadAnswer>, n: nat)
    requires answers != [] && answers[0].Chunk? && n <= |answers[0].bytes|
    ensures answers[0].bytes[..n] + Incoming(AfterChunk(answers, n)) == Incoming(answers)
    ensures n > 0 ==> Remaining(AfterChunk(answers, n)) < Remaining(answers)
    ensures n > 0 ==> Available(answers) == n + Available(AfterChunk(answers, n))
  {
    var bytes, tail := answers[0].bytes, Incoming(answers[1..]);
    if n == |bytes| {
      assert bytes[..n] == bytes;
    } else {
      assert ([Chunk(bytes[n..])] + answers[1..])[1..] == answers[1..];
      assert bytes[..n] + (bytes[n..] + tail) == bytes + tail;
    }
  }

  /** The plaintext byte at `i`, and the register once it has been decrypted. */
  lemma {:induction false} DecryptAt(block: BlockFunction, register: Register, raw: seq<byte>, i: nat)
    requires i < |raw|
    ensures var mid := RegisterAfter(register, raw[..i]);
            && Decrypt(block, register, raw)[i] == Xor(raw[i], block(mid))
            && RegisterAfter(register, raw[..i + 1]) == Shift(mid, raw[i])
  {
    var mid := RegisterAfter(register, raw[..i]);
    assert raw == raw[..i] + raw[i..] && raw[i..][0] == raw[i];
    DecryptAppend(block, register, raw[..i], raw[i..]);
    assert raw[..i + 1] == raw[..i] + [raw[i]];
    RegisterAfterAppend(register, raw[..i], [raw[i]]);
    assert RegisterAfter(mid, [raw[i]]) == RegisterAfter(Shift(mid, raw[i]), [raw[i]][1..]);
  }

  class StreamDecryptor {
    const block: BlockFunction
    const iv: Register
    /** All the bytes that the inner reader will ever yield. */
    ghost const incoming: seq<byte>
    var register: Register
    var answers: seq<ReadAnswer>
    /** Every byte taken from the inner reader, in order. */
    ghost var received: seq<byte>

    /** The register follows the bytes taken, and no byte is dropped, repeated or made up. */
    ghost predicate Valid()
      reads this
    {
      && register == RegisterAfter(iv, received)
      && received + Incoming(answers) == incoming
    }

    constructor (block: BlockFunction, iv: Register, answers: seq<ReadAnswer>)
      ensures Valid() && this.block == block && this.iv == iv && incoming == Incoming(answers)
      ensures this.answers == answers && received == []
    {
      this.block := block;
      this.iv := iv;
      incoming := Incoming(answers);
      this.answers := answers;
      register := iv;
      received := [];
    }

    /** The inner reader's own poll: appends raw bytes after `filled`. */
    method PollInner(buf: array<byte>, filled: nat) returns (r: ReadPoll, end: nat)
      requires filled <= buf.Length
      modifies this`answers, buf
      ensures filled <= end <= buf.Length
      ensures forall j :: 0 <= j < filled || end <= j < buf.Length ==> buf[j] == old(buf[j])
      ensures buf[filled..end] + Incoming(answers) == Incoming(old(answers))
      ensures !r.ReadReady? ==> end == filled
      ensures old(answers) != [] && (end > filled || !r.ReadReady?) ==>
                Remaining(answers) < Remaining(old(answers))
      ensures old(answers) == [] ==> answers == [] && r.ReadPending?
      ensures filled < buf.Length ==> Drawn(old(answers), answers, r, end - filled)
    {
      end := filled;
      if answers == [] {
        return ReadPending, end;
      }
      match answers[0] {
        case ReadNotReady =>
          answers := answers[1..];
          r := ReadPending;
        case ReadError =>
          answers := answers[1..];
          r := ReadFailed;
        case Chunk(bytes) =>
          var n := if |bytes| <= buf.Length - filled then |bytes| else buf.Length - filled;
          forall k | filled <= k < filled + n {
            buf[k] := bytes[k - filled];
          }
          end := filled + n;
          assert buf[filled..end] == bytes[..n];
          ChunkSplits(answers, n);
          answers := AfterChunk(answers, n);
          r := ReadReady;
      }
    }

    /** Decrypts `buf[lo..hi]` in place, one byte at a time. */
    method DecryptRange(buf: array<byte>, lo: nat, hi: nat)
      requires lo <= hi <= buf.Length
      modifies this`register, buf
      ensures register == RegisterAfter(old(register), old(buf[lo..hi]))
      ensures buf[lo..hi] == Decrypt(block, old(register), old(buf[lo..hi]))
      ensures forall j :: 0 <= j < lo || hi <= j < buf.Length ==> buf[j] == old(buf[j])
    {
      ghost var raw := buf[lo..hi];
      ghost var plain := Decrypt(block, register, raw);
      var k := lo;
      assert raw[..0] == [];
      while k < hi
        invariant lo <= k <= hi
        invariant register == RegisterAfter(old(register), raw[..k - lo])
        invariant forall j :: 0 <= j < lo || k <= j < buf.Length ==> buf[j] == old(buf[j])
        invariant forall j :: 0 <= j < k - lo ==> buf[lo + j] == plain[j]
      {
        DecryptAt(block, old(register), raw, k - lo);
        var b := buf[k];
        assert b == raw[k - lo];
        buf[k] := Xor(b, block(register));
        register := Shift(register, b);
        k := k + 1;
      }
      assert raw[..hi - lo] == raw;
    }

    /** One poll into a partly filled buffer: the new bytes, and only those, are decrypted
        in place, so that the plaintext continues where the last poll left it. */
    method PollRead(buf: array<byte>, filled: nat) returns (r: ReadPoll, end: nat)
      requires Valid() && filled <= buf.Length
      modifies this, buf
      ensures Valid() && filled <= end <= buf.Length
      ensures |received| == |old(received)| + end - filled && old(received) <= received
      ensures Decrypt(block, iv, received) == Decrypt(block, iv, old(received)) + buf[filled..end]
      ensures forall j :: 0 <= j < filled || end <= j < buf.Length ==> buf[j] == old(buf[j])
      ensures !r.ReadReady? ==> end == filled
      ensures old(answers) != [] && (end > filled || !r.ReadReady?) ==>
                Remaining(answers) < Remaining(old(answers))
      ensures old(answers) == [] ==> answers == [] && r.ReadPending?
      ensures filled < buf.Length ==> Drawn(old(answers), answers, r, end - filled)
    {
      r, end := PollInner(buf, filled);
      ghost var raw := buf[filled..end];
      assert received + raw + Incoming(answers) == received + (raw + Incoming(answers));
      DecryptAppend(block, iv, received, raw);
      RegisterAfterAppend(iv, received, raw);
      if r.ReadReady? {
        DecryptRange(buf, filled, end);
      }
      received := received + raw;
    }

    /** One poll of a read whose plaintext so far continues `base`. */
    method PollOn(buf: array<byte>, filled: nat, ghost base: seq<byte>) returns (r: ReadPoll, end: nat)
      requires Valid() && filled <= buf.Length
      requires Decrypt(block, iv, received) == base + buf[..filled]
      modifies this, buf
      ensures Valid() && filled <= end <= buf.Length && old(received) <= received
      ensures Decrypt(block, iv, received) == base + buf[..end]
      ensures !r.ReadReady? ==> end == filled
      ensures old(answers) != [] && (end > filled || !r.ReadReady?) ==>
                Remaining(answers) < Remaining(old(answers))
      ensures old(answers) == [] ==> answers == [] && r.ReadPending?
      ensures filled < buf.Length ==> Drawn(old(answers), answers, r, end - filled)
    {
      ghost var before := buf[..filled];
      r, end := PollRead(buf, filled);
      assert buf[..end] == before + buf[filled..end];
      assert base + before + buf[filled..end] == base + (before + buf[filled..end]);
    }

    /** Fills a buffer of `n` bytes by polling, as `read_exact` does. It fails at the end of
        the stream or on an error, and is dropped when the inner reader stays pending. */
    method ReadExact(n: nat) returns (ok: bool, data: seq<byte>)
      requires Valid()
      modifies this
      ensures Valid() && old(received) <= received
      ensures ok ==> |data| == n
      ensures ok <==> n <= old(Available(answers))
      ensures Decrypt(block, iv, received) == Decrypt(block, iv, old(received)) + data
    {
      var buf := new byte[n];
      var filled := 0;
      while filled < n
        invariant Valid() && filled <= n && old(received) <= received
        invariant Decrypt(block, iv, received) == Decrypt(block, iv, old(received)) + buf[..filled]
        invariant filled + Available(answers) == old(Available(answers))
        decreases Remaining(answers)
      {
        var r, end := PollOn(buf, filled, Decrypt(block, iv, old(received)));
        if r.ReadFailed? || (r.ReadReady? && end == filled) || (r.ReadPending? && answers == []) {
          return false, buf[..filled];
        }
        filled := end;
      }
      return true, buf[..filled];
    }
  }

  // ---------------------------------------------------------------- writer and reader together

  /** Any part of the delivered bytes decrypts to that part of the plaintext. */
  lemma {:induction false} DeliveredDecrypts(block: BlockFunction, iv: Register, fed: seq<byte>, received: seq<byte>)
    requires received <= Encrypt(block, iv, fed)
    ensures Decrypt(block, iv, received) == fed[..|received|]
  {
    var n := |received|;
    calc {
      Decrypt(block, iv, received);
    == { assert received == Encrypt(block, iv, fed)[..n]; }
      Decrypt(block, iv, Encrypt(block, iv, fed)[..n]);
    == { EncryptPrefix(block, iv, fed, n); }
      Decrypt(block, iv, Encrypt(block, iv, fed[..n]));
    == { DecryptEncrypt(block, iv, fed[..n]); }
      fed[..n];
    }
  }

  /** Whatever polls brought an encryptor and a decryptor of one key to where they are: if the
      inner writer swallowed nothing and what reaches the inner reader are bytes that the inner
      writer accepted, then everything the reader has decrypted is what the writer was given, in
      order, and all of it once every byte has been accepted and taken. */
  lemma ReadIsWritten(writer: StreamEncryptor, reader: StreamDecryptor)
    requires writer.Valid() && reader.Valid() && writer.block == reader.block && writer.iv == reader.iv
    requires writer.lost == 0 && reader.incoming <= writer.inner.delivered
    ensures Decrypt(reader.block, reader.iv, reader.received) <= writer.fed
    ensures reader.received == writer.inner.delivered && writer.held.None? ==>
              Decrypt(reader.block, reader.iv, reader.received) == writer.fed
  {
    var cipher := Encrypt(writer.block, writer.iv, writer.fed);
    assert reader.received <= reader.incoming <= writer.inner.delivered <= cipher;
    DeliveredDecrypts(writer.block, writer.iv, writer.fed, reader.received);
  }
}
