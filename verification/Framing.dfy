/** Packet frames: the three encodings of a clientbound packet and the decoder that undoes
    them. zlib is a parameter, of which only `inflate(deflate(x)) == x` is ever assumed. */
module Framing {
  import opened Bytes
  import opened Sequences
  import opened Wrappers
  import opened VarInt

  const MAX_PACKET_SIZE := 2_097_152
  const MAX_PACKET_DATA_SIZE := 8_388_608

  datatype Zlib = Zlib(deflate: seq<byte> -> seq<byte>, inflate: seq<byte> -> Option<seq<byte>>)

  ghost predicate Lawful(z: Zlib) {
    forall x :: z.inflate(z.deflate(x)) == Some(x)
  }

  datatype Packet = Packet(id: i32, payload: seq<byte>)

  datatype PacketError =
    | PacketTooLong(length: int)
    | OutOfBounds
    | MalformedValue
    | DecompressionFailed
    | NotCompressed
    | Other

  datatype Result<+T> = Ok(value: T) | Err(error: PacketError)

  /** The cast of a VarInt to `usize`: a negative value becomes a huge one. */
  function ToUsize(v: i32): nat {
    if v < 0 then v + 0x1_0000_0000_0000_0000 else v
  }

  /** A nonzero compression threshold (`NonZeroU32`). */
  type Threshold = t: int | 0 < t < U32 witness 256

  // ---------------------------------------------------------------- encoding

  /** The packet id followed by the packet body, as `write_packet` puts it in the buffer. */
  function PacketData(p: Packet): (data: seq<byte>)
    ensures |data| > 0
  {
    Encode(ToU32(p.id)) + p.payload
  }

  /** A length written in front of a frame, cast to 32 bits first. */
  function EncodeLength(n: nat): (bytes: seq<byte>)
    ensures |bytes| > 0
  {
    Encode(ToU32(ToI32(n)))
  }

  /** What a frame carries after its length. */
  function Body(z: Zlib, compression: Option<Threshold>, data: seq<byte>): seq<byte> {
    match compression
    case None => data
    case Some(threshold) =>
      if |data| >= threshold then EncodeLength(|data|) + z.deflate(data) else [0] + data
  }

  function Frame(z: Zlib, compression: Option<Threshold>, data: seq<byte>): seq<byte> {
    EncodeLength(|Body(z, compression, data)|) + Body(z, compression, data)
  }

  /** `EncodedPacket::from_data`: each path has its own size limit. */
  function EncodeData(z: Zlib, compression: Option<Threshold>, data: seq<byte>): Result<seq<byte>> {
    match compression
    case None =>
      var completeLen := WrittenSize(ToI32(|data|)) + |data|;
      if completeLen > MAX_PACKET_SIZE then Err(PacketTooLong(completeLen))
      else Ok(Frame(z, compression, data))
    case Some(_) =>
      if |data| + MAX_SIZE * 2 > MAX_PACKET_DATA_SIZE then Err(PacketTooLong(|data|))
      else Ok(Frame(z, compression, data))
  }

  /** Without compression a frame is the length and the data, which together have at most 2097152
      bytes; anything longer is refused. */
  lemma {:induction false} PlainForm(z: Zlib, data: seq<byte>)
    ensures EncodeData(z, None, data).Ok? <==> |Encode(|data|)| + |data| <= 2_097_152
    ensures EncodeData(z, None, data).Ok? ==> EncodeData(z, None, data).value == Encode(|data|) + data
  {
    UncompressedSize(|data|);
    if |data| <= 2_097_152 {
      SmallLength(|data|);
    }
  }

  lemma {:induction false} PlainTooLong(z: Zlib, data: seq<byte>)
    requires 2_097_152 < |Encode(|data|)| + |data| && |data| < U32
    ensures EncodeData(z, None, data) == Err(PacketTooLong(|Encode(|data|)| + |data|))
  {
    SmallCasts(|data|);
    WrittenSizeIsEncodedLength(ToI32(|data|));
    UncompressedSize(|data|);
  }

  /** Below the threshold it is the length, a zero and the data. */
  lemma {:induction false} ShortForm(z: Zlib, threshold: Threshold, data: seq<byte>)
    requires |data| < threshold
    ensures EncodeData(z, Some(threshold), data)
         == if |data| > 8_388_598 then Err(PacketTooLong(|data|)) else Ok(Encode(|data| + 1) + ([0] + data))
  {
    var body := [0] + data;
    assert Body(z, Some(threshold), data) == body;
    if |data| <= 8_388_598 {
      SmallLength(|data| + 1);
    }
  }

  /** From the threshold on it is the length, the length of the data and the deflated data. */
  lemma {:induction false} DeflatedForm(z: Zlib, threshold: Threshold, data: seq<byte>)
    requires |data| >= threshold
    ensures var body := Encode(|data|) + z.deflate(data);
            EncodeData(z, Some(threshold), data)
            == if |data| > 8_388_598 then Err(PacketTooLong(|data|)) else Ok(Encode(|body| % U32) + body)
  {
    if |data| <= 8_388_598 {
      SmallLength(|data|);
      LengthIsEncoded(|Body(z, Some(threshold), data)|);
    }
  }

  lemma {:induction false} LengthIsEncoded(n: nat)
    ensures EncodeLength(n) == Encode(n % U32)
  {
    assert ToU32(ToI32(n)) == n % U32;
  }

  lemma {:induction false} SmallLength(n: nat)
    requires n < U32
    ensures EncodeLength(n) == Encode(n)
  {
    SmallCasts(n);
  }

  lemma SmallCasts(n: nat)
    requires n < U32
    ensures ToU32(ToI32(n)) == n
  {
  }

  lemma {:induction false} UncompressedSize(n: nat)
    ensures WrittenSize(ToI32(n)) + n <= MAX_PACKET_SIZE <==> |Encode(n)| + n <= MAX_PACKET_SIZE
  {
    if n <= MAX_PACKET_SIZE {
      SmallCasts(n);
      WrittenSizeIsEncodedLength(ToI32(n));
    }
  }

  /** The packet buffer with room reserved in front. */
  class FrontVec {
    var buf: seq<byte>
    var frontSpace: nat

    ghost predicate Valid()
      reads this
    {
      frontSpace <= |buf|
    }

    function Contents(): seq<byte>
      requires Valid()
      reads this
    {
      buf[frontSpace..]
    }

    constructor (reserve: nat)
      ensures Valid() && Contents() == [] && frontSpace == reserve
    {
      buf := seq(reserve, _ => 0);
      frontSpace := reserve;
    }

    method Extend(other: seq<byte>)
      requires Valid()
      modifies this
      ensures Valid() && frontSpace == old(frontSpace)
      ensures Contents() == old(Contents()) + other
    {
      buf := buf + other;
    }

    /** Panics when the reserved space is too small, hence the precondition. */
    method SetInFront(other: seq<byte>)
      requires Valid() && |other| <= frontSpace
      modifies this
      ensures Valid() && frontSpace == old(frontSpace) - |other|
      ensures Contents() == other + old(Contents())
    {
      var newStart := frontSpace - |other|;
      buf := buf[..newStart] + other + buf[frontSpace..];
      frontSpace := newStart;
    }

    /** `VarInt::set_in_front`. */
    method SetVarIntInFront(v: i32, size: nat)
      requires Valid() && size == WrittenSize(v) && size <= frontSpace
      modifies this
      ensures Valid() && frontSpace == old(frontSpace) - size
      ensures Contents() == Encode(ToU32(v)) + old(Contents())
    {
      FrontBytesIsEncode(v);
      WrittenSizeIsEncodedLength(v);
      SetInFront(FrontBytes(v, size));
    }
  }

  /** `EncodedPacket::from_data_uncompressed`. Six reserved bytes are always enough. */
  method FromDataUncompressed(packet: FrontVec, z: Zlib) returns (r: Result<seq<byte>>)
    requires packet.Valid() && packet.frontSpace == 6
    modifies packet
    ensures r == EncodeData(z, None, old(packet.Contents()))
  {
    var data := packet.Contents();
    var size := WrittenSize(ToI32(|data|));
    var completeLen := size + |data|;
    if completeLen > MAX_PACKET_SIZE {
      return Err(PacketTooLong(completeLen));
    }
    WrittenSizeIsEncodedLength(ToI32(|data|));
    packet.SetVarIntInFront(ToI32(|data|), size);
    return Ok(packet.Contents());
  }

  /** `EncodedPacket::from_packet_data`. Neither the ten bytes reserved before the compressed
      data nor the six before the plain data can run out. */
  method FromPacketData(packet: FrontVec, threshold: Threshold, z: Zlib) returns (r: Result<seq<byte>>)
    requires packet.Valid() && packet.frontSpace == 6
    modifies packet
    ensures r == EncodeData(z, Some(threshold), old(packet.Contents()))
  {
    var data := packet.Contents();
    if |data| + MAX_SIZE * 2 > MAX_PACKET_DATA_SIZE {
      return Err(PacketTooLong(|data|));
    }
    if |data| >= threshold {
      var buf := new FrontVec(10);
      buf.Extend(z.deflate(data));
      assert buf.Contents() == z.deflate(data);
      var size := WrittenSize(ToI32(|data|));
      var fullLen := size + |buf.Contents()|;
      var fullSize := WrittenSize(ToI32(fullLen));
      WrittenSizeIsEncodedLength(ToI32(|data|));
      WrittenSizeIsEncodedLength(ToI32(fullLen));
      buf.SetVarIntInFront(ToI32(|data|), size);
      buf.SetVarIntInFront(ToI32(fullLen), fullSize);
      return Ok(buf.Contents());
    }
    var withHeader := |data| + 1;
    var size := WrittenSize(ToI32(withHeader));
    WrittenSizeIsEncodedLength(ToI32(withHeader));
    ShortHeader(withHeader);
    assert WrittenSize(0) == 1 && Encode(ToU32(0)) == [0];
    packet.SetVarIntInFront(0, 1);
    packet.SetVarIntInFront(ToI32(withHeader), size);
    return Ok(packet.Contents());
  }

  /** A length below 2^28 takes at most four bytes. */
  lemma ShortHeader(n: nat)
    requires n < 0x1000_0000
    ensures |EncodeLength(n)| <= 4
  {
    Pow128Values();
    EncodeSize(n, 4);
  }

  // ---------------------------------------------------------------- decoding

  /** A received packet keeps its whole buffer and the offset of the payload. */
  datatype RawPacket = RawPacket(id: i32, buffer: seq<byte>, payloadStart: u32) {
    ghost predicate Valid() {
      payloadStart <= |buffer|
    }

    function Payload(): seq<byte>
      requires Valid()
    {
      buffer[payloadStart..]
    }
  }

  datatype Decoded =
    | Incomplete
    | Rejected(error: PacketError)
    | Decoded(packet: Packet, rest: seq<byte>)

  /** The id and payload of uncompressed packet data. */
  function DecodeData(data: seq<byte>): Result<Packet> {
    match Parse(data)
    case Value(id, size) => Ok(Packet(id, data[size..]))
    case _ => Err(MalformedValue)
  }

  function DecodeBody(z: Zlib, compression: Option<Threshold>, body: seq<byte>): Result<Packet> {
    match compression
    case None => DecodeData(body)
    case Some(threshold) =>
      match Parse(body)
      case Value(length, size) =>
        if ToUsize(length) > MAX_PACKET_DATA_SIZE then Err(PacketTooLong(ToUsize(length)))
        else if length > 0 then
          (match z.inflate(body[size..])
           case None => Err(DecompressionFailed)
           case Some(data) => if |data| == length then DecodeData(data) else Err(DecompressionFailed))
        else if |body| - WrittenSize(length) > threshold then Err(NotCompressed)
        else DecodeData(body[size..])
      case _ => Err(MalformedValue)
  }

  datatype Split = SplitIncomplete | SplitRejected(error: PacketError) | Split(body: seq<byte>, rest: seq<byte>)

  /** Cuts the first frame off a byte stream. */
  function SplitFrame(s: seq<byte>): (r: Split)
    ensures r.Split? ==> |r.body| <= MAX_PACKET_SIZE && |r.rest| < |s|
  {
    match Parse(s)
    case NeedMore => SplitIncomplete
    case TooLong => SplitRejected(MalformedValue)
    case Value(length, size) =>
      if ToUsize(length) > MAX_PACKET_SIZE then SplitRejected(OutOfBounds)
      else if size + length > |s| then SplitIncomplete
      else Split(s[size..size + length], s[size + length..])
  }

  /** The meaning of the decoder on a byte stream. */
  function Decode(z: Zlib, compression: Option<Threshold>, s: seq<byte>): Decoded {
    match SplitFrame(s)
    case SplitIncomplete => Incomplete
    case SplitRejected(e) => Rejected(e)
    case Split(body, rest) =>
      match DecodeBody(z, compression, body)
      case Err(e) => Rejected(e)
      case Ok(p) => Decoded(p, rest)
  }

  // ---------------------------------------------------------------- what the decoder accepts

  lemma AfterLength(n: i32, data: seq<byte>)
    ensures var s, size := Encode(ToU32(n)) + data, |Encode(ToU32(n))|;
            Parse(s) == Value(n, size) && s[size..] == data && |s| == size + |data| && size == WrittenSize(n)
  {
    ParseEncode(n, data);
    WrittenSizeIsEncodedLength(n);
  }

  /** A length and what follows it: a negative or too large length is rejected, too little data is
      waited for, and otherwise the frame is exactly that much of the data. */
  lemma FrameLimits(z: Zlib, compression: Option<Threshold>, n: i32, data: seq<byte>)
    ensures Decode(z, compression, Encode(ToU32(n)) + data)
         == if n < 0 || n > 2_097_152 then Rejected(OutOfBounds)
            else if |data| < n then Incomplete
            else
              match DecodeBody(z, compression, data[..n])
              case Err(e) => Rejected(e)
              case Ok(p) => Decoded(p, data[n..])
  {
    AfterLength(n, data);
    var s, size := Encode(ToU32(n)) + data, |Encode(ToU32(n))|;
    if 0 <= n <= |data| {
      assert s[size..size + n] == data[..n] && s[size + n..] == data[n..];
    }
  }

  /** A frame body under compression starts with the length of its data. A negative or too large
      length is rejected; a positive one needs data that inflates to that length; under a zero the
      data follows as it is, and more of it than the threshold is rejected. */
  lemma CompressedBody(z: Zlib, threshold: Threshold, n: i32, data: seq<byte>)
    ensures DecodeBody(z, Some(threshold), Encode(ToU32(n)) + data)
         == if n < 0 then Err(PacketTooLong(n + 0x1_0000_0000_0000_0000))
            else if n > 8_388_608 then Err(PacketTooLong(n))
            else if n > 0 then
              if z.inflate(data).Some? && |z.inflate(data).value| == n then DecodeData(z.inflate(data).value)
              else Err(DecompressionFailed)
            else if |data| > threshold then Err(NotCompressed)
            else DecodeData(data)
  {
    AfterLength(n, data);
  }

  /** Packet data is an id followed by the payload, whatever the payload; without an id in the first
      five bytes it is malformed, and so is a body or a stream without a length there. */
  lemma DataFormat(z: Zlib, threshold: Threshold, id: i32, payload: seq<byte>, junk: seq<byte>)
    requires AllContinue(junk, if |junk| < 5 then |junk| else 5)
    ensures DecodeData(Encode(ToU32(id)) + payload) == Ok(Packet(id, payload))
    ensures DecodeBody(z, None, Encode(ToU32(id)) + payload) == Ok(Packet(id, payload))
    ensures DecodeData(junk) == Err(MalformedValue) == DecodeBody(z, Some(threshold), junk)
    ensures SplitFrame(junk) == if |junk| < 5 then SplitIncomplete else SplitRejected(MalformedValue)
  {
    AfterLength(id, payload);
    ParseMeans(junk);
  }

  // ---------------------------------------------------------------- the decoder

  /** `TCPNetworkDecoder` over the bytes that are still to be read. */
  class NetworkDecoder {
    var input: seq<byte>
    var compression: Option<Threshold>

    constructor (input: seq<byte>)
      ensures this.input == input && compression == None
    {
      this.input := input;
      compression := None;
    }

    method SetCompression(threshold: Threshold)
      modifies this`compression
      ensures compression == Some(threshold)
    {
      compression := Some(threshold);
    }

    /** Separates the packet data from a frame body: the buffer that holds it and where it
        starts there. The length subtraction cannot wrap below zero. */
    method PacketBuffer(z: Zlib, body: seq<byte>) returns (r: Result<(seq<byte>, nat)>)
      requires |body| <= MAX_PACKET_SIZE
      ensures r.Ok? ==> r.value.1 <= |r.value.0| <= MAX_PACKET_DATA_SIZE
      ensures DecodeBody(z, compression, body)
           == if r.Err? then Err(r.error) else DecodeData(r.value.0[r.value.1..])
    {
      if compression.None? {
        assert body[0..] == body;
        return Ok((body, 0));
      }
      var header := VarInt.Read(body);
      if !header.Value? {
        return Err(MalformedValue);
      }
      WrittenSizeAtMostParsed(body);
      var rawLen: nat := |body| - WrittenSize(header.value);
      if ToUsize(header.value) > MAX_PACKET_DATA_SIZE {
        return Err(PacketTooLong(ToUsize(header.value)));
      }
      if header.value > 0 {
        var data := z.inflate(body[header.size..]);
        if data.None? || |data.value| != header.value {
          return Err(DecompressionFailed);
        }
        assert data.value[0..] == data.value;
        return Ok((data.value, 0));
      }
      if rawLen > compression.value {
        return Err(NotCompressed);
      }
      return Ok((body, header.size));
    }

    /** Reads a length and that many bytes. Running out of input is the reader's
        end-of-stream error. */
    method ReadFrame() returns (r: Result<seq<byte>>)
      modifies this`input
      ensures match SplitFrame(old(input))
              case Split(body, rest) => r == Ok(body) && input == rest
              case SplitRejected(e) => r == Err(e)
              case SplitIncomplete => r == Err(MalformedValue) || r == Err(Other)
    {
      var header := VarInt.Read(input);
      if !header.Value? {
        return Err(MalformedValue);
      }
      if ToUsize(header.value) > MAX_PACKET_SIZE {
        return Err(OutOfBounds);
      }
      if header.size + header.value > |input| {
        input := [];
        return Err(Other);
      }
      var end := header.size + header.value;
      r := Ok(input[header.size..end]);
      input := input[end..];
    }

    /** Parses the packet id while keeping the buffer that already holds the payload. */
    method FromBuffer(buffer: seq<byte>, start: nat) returns (r: Result<RawPacket>)
      requires start <= |buffer| <= MAX_PACKET_DATA_SIZE
      ensures r.Ok? ==> r.value.Valid()
      ensures DecodeData(buffer[start..])
           == if r.Err? then Err(r.error) else Ok(Packet(r.value.id, r.value.Payload()))
    {
      var id := VarInt.Read(buffer[start..]);
      if !id.Value? {
        return Err(MalformedValue);
      }
      assert buffer[start..][id.size..] == buffer[start + id.size..];
      return Ok(RawPacket(id.value, buffer, start + id.size));
    }

    /** `get_raw_packet`. */
    method GetRawPacket(z: Zlib) returns (r: Result<RawPacket>)
      modifies this`input
      ensures r.Ok? ==> r.value.Valid()
      ensures match Decode(z, compression, old(input))
              case Decoded(p, rest) =>
                r.Ok? && input == rest && Packet(r.value.id, r.value.Payload()) == p
              case Rejected(e) => r == Err(e)
              case Incomplete => r == Err(MalformedValue) || r == Err(Other)
    {
      var body := ReadFrame();
      if body.Err? {
        return Err(body.error);
      }
      var found := PacketBuffer(z, body.value);
      if found.Err? {
        return Err(found.error);
      }
      r := FromBuffer(found.value.0, found.value.1);
    }
  }

  // ---------------------------------------------------------------- the decoder undoes the encoder

  lemma DecodeDataRoundTrip(p: Packet)
    ensures DecodeData(PacketData(p)) == Ok(p)
  {
    ParseEncode(p.id, p.payload);
  }

  lemma ToI32Small(n: nat)
    requires n < 0x8000_0000
    ensures ToI32(n) == n
  {
  }

  /** A frame body decodes to its packet in all three formats. The threshold is nonzero, so
      a compressed body never starts with the marker of an uncompressed one. */
  lemma DecodeBodyRoundTrip(z: Zlib, compression: Option<Threshold>, p: Packet)
    requires Lawful(z)
    requires compression.Some? ==> |PacketData(p)| + MAX_SIZE * 2 <= MAX_PACKET_DATA_SIZE
    ensures DecodeBody(z, compression, Body(z, compression, PacketData(p))) == Ok(p)
  {
    var data := PacketData(p);
    var body := Body(z, compression, data);
    DecodeDataRoundTrip(p);
    if compression.Some? {
      if |data| >= compression.value {
        var packed := z.deflate(data);
        ToI32Small(|data|);
        ParseEncode(|data|, packed);
        assert body[|EncodeLength(|data|)|..] == packed;
      } else {
        assert Encode(ToU32(0)) == [0] && WrittenSize(0) == 1;
        ParseEncode(0, data);
        assert body[1..] == data;
      }
    }
  }

  /** A decoded frame ends where its length says. */
  lemma DecodedLength(z: Zlib, compression: Option<Threshold>, body: seq<byte>, rest: seq<byte>)
    requires Decode(z, compression, EncodeLength(|body|) + body + rest).Decoded?
    ensures Decode(z, compression, EncodeLength(|body|) + body + rest).rest == rest
            ==> |body| <= MAX_PACKET_SIZE
  {
    assert EncodeLength(|body|) + body + rest == EncodeLength(|body|) + (body + rest);
    ParseEncode(ToI32(|body|), body + rest);
  }

  /** The central law: an encoded packet, whatever follows it, decodes to itself and leaves
      the rest of the stream intact, exactly when its frame body fits the decoder's limit. */
  lemma DecodeEncoded(z: Zlib, compression: Option<Threshold>, p: Packet, rest: seq<byte>)
    requires Lawful(z)
    requires EncodeData(z, compression, PacketData(p)).Ok?
    ensures Decode(z, compression, EncodeData(z, compression, PacketData(p)).value + rest)
            == Decoded(p, rest)
            <==> |Body(z, compression, PacketData(p))| <= MAX_PACKET_SIZE
  {
    var body := Body(z, compression, PacketData(p));
    var header := EncodeLength(|body|);
    var s := header + body + rest;
    if |body| <= MAX_PACKET_SIZE {
      assert s == header + (body + rest);
      ToI32Small(|body|);
      ParseEncode(|body|, body + rest);
      assert s[|header|..|header| + |body|] == body;
      assert s[|header| + |body|..] == rest;
      DecodeBodyRoundTrip(z, compression, p);
    } else if Decode(z, compression, s).Decoded? {
      DecodedLength(z, compression, body, rest);
    }
  }

  /** Without compression the encoder's own check is enough. */
  lemma UncompressedAlwaysDecodes(z: Zlib, p: Packet)
    requires EncodeData(z, None, PacketData(p)).Ok?
    ensures |Body(z, None, PacketData(p))| <= MAX_PACKET_SIZE
  {
  }

  /** The compressed paths lack that check: with a threshold above the frame limit, a packet
      of `MAX_PACKET_SIZE` bytes is encoded and then rejected. */
  lemma EncodedButRejected(z: Zlib, payload: seq<byte>)
    requires Lawful(z) && |payload| == MAX_PACKET_SIZE - 1
    ensures var compression := Some(MAX_PACKET_SIZE + 1);
            var encoded := EncodeData(z, compression, PacketData(Packet(0, payload)));
            encoded.Ok? && Decode(z, compression, encoded.value) == Rejected(OutOfBounds)
  {
    var compression := Some(MAX_PACKET_SIZE + 1);
    var data := PacketData(Packet(0, payload));
    assert Encode(ToU32(0)) == [0];
    var body := [0] + data;
    ToI32Small(|body|);
    ParseEncode(|body|, body);
  }

  /** A frame cut anywhere reads as incomplete, never as a packet or an error. */
  lemma CutFrameIsIncomplete(z: Zlib, compression: Option<Threshold>, data: seq<byte>, n: nat)
    requires |Body(z, compression, data)| <= MAX_PACKET_SIZE
    requires n < |Frame(z, compression, data)|
    ensures Decode(z, compression, Frame(z, compression, data)[..n]).Incomplete?
  {
    var body := Body(z, compression, data);
    var header := EncodeLength(|body|);
    ToI32Small(|body|);
    if n < |header| {
      assert (header + body)[..n] == header[..n];
      ParsePrefix(|body|, n);
    } else {
      assert (header + body)[..n] == header + body[..n - |header|];
      ParseEncode(|body|, body[..n - |header|]);
    }
  }

  /** An empty stream is incomplete too. */
  lemma EmptyIsIncomplete(z: Zlib, compression: Option<Threshold>)
    ensures Decode(z, compression, []).Incomplete?
  {
    assert ParseRaw([], MAX_SIZE) == RawNeedMore;
    assert Parse([]) == NeedMore;
    assert SplitFrame([]) == SplitIncomplete;
  }

  // ---------------------------------------------------------------- whole streams

  ghost predicate Sendable(z: Zlib, compression: Option<Threshold>, p: Packet) {
    && EncodeData(z, compression, PacketData(p)).Ok?
    && |Body(z, compression, PacketData(p))| <= MAX_PACKET_SIZE
  }

  function FrameOf(z: Zlib, compression: Option<Threshold>, p: Packet): (f: seq<byte>)
    ensures |f| > 0
  {
    Frame(z, compression, PacketData(p))
  }

  /** The compression setting in force for the packet with a given number. */
  type Settings = nat -> Option<Threshold>

  /** Decodes the packet with a given number off a stream. */
  type Decoder = (nat, seq<byte>) -> Decoded

  function DecoderFor(z: Zlib, settings: Settings): Decoder {
    (i: nat, s: seq<byte>) => Decode(z, settings(i), s)
  }

  /** All packets a decoder gets out of a stream, from the `i`-th on, and what stopped it. A
      decoder that consumed nothing would never stop; `Decode` always consumes. */
  function DecodeAll(decoder: Decoder, i: nat, s: seq<byte>): (seq<Packet>, Decoded)
    decreases |s|
  {
    match decoder(i, s)
    case Decoded(p, rest) =>
      if |rest| >= |s| then ([p], Rejected(Other))
      else
        var tail := DecodeAll(decoder, i + 1, rest);
        ([p] + tail.0, tail.1)
    case end => ([], end)
  }

  ghost predicate Undoes(decoder: Decoder, i: nat, frame: seq<byte>, p: Packet) {
    frame != [] && forall rest :: decoder(i, frame + rest) == Decoded(p, rest)
  }

  /** Frames that the decoder undoes one by one are undone in sequence. */
  lemma {:induction false} DecodeJoined(decoder: Decoder, frames: seq<seq<byte>>, packets: seq<Packet>, rest: seq<byte>)
    requires |frames| == |packets|
    requires forall k :: 0 <= k < |frames| ==> Undoes(decoder, k, frames[k], packets[k])
    ensures var tail := DecodeAll(decoder, |frames|, rest);
            DecodeAll(decoder, 0, Flatten(frames) + rest) == (packets + tail.0, tail.1)
  {
    var tail := DecodeAll(decoder, |frames|, rest);
    if frames == [] {
      assert Flatten(frames) + rest == rest;
      assert packets + tail.0 == tail.0;
    } else {
      var n := |frames| - 1;
      assert Undoes(decoder, n, frames[n], packets[n]);
      assert Flatten(frames) + rest == Flatten(frames[..n]) + (frames[n] + rest);
      DecodeJoined(decoder, frames[..n], packets[..n], frames[n] + rest);
      assert packets[..n] + ([packets[n]] + tail.0) == packets + tail.0;
    }
  }

  function Frames(z: Zlib, settings: Settings, packets: seq<Packet>): seq<seq<byte>> {
    seq(|packets|, k requires 0 <= k < |packets| => FrameOf(z, settings(k), packets[k]))
  }

  lemma FrameUndone(z: Zlib, settings: Settings, i: nat, p: Packet)
    requires Lawful(z) && Sendable(z, settings(i), p)
    ensures Undoes(DecoderFor(z, settings), i, FrameOf(z, settings(i), p), p)
  {
    forall rest
      ensures DecoderFor(z, settings)(i, FrameOf(z, settings(i), p) + rest) == Decoded(p, rest)
    {
      DecodeEncoded(z, settings(i), p, rest);
    }
  }

  ghost predicate AllSendable(z: Zlib, settings: Settings, packets: seq<Packet>) {
    forall k :: 0 <= k < |packets| ==> Sendable(z, settings(k), packets[k])
  }

  lemma {:induction false} DecodeFrames(z: Zlib, settings: Settings, packets: seq<Packet>, rest: seq<byte>)
    requires Lawful(z) && AllSendable(z, settings, packets)
    requires DecoderFor(z, settings)(|packets|, rest).Incomplete?
    ensures DecodeAll(DecoderFor(z, settings), 0, Flatten(Frames(z, settings, packets)) + rest)
            == (packets, Incomplete)
  {
    var decoder := DecoderFor(z, settings);
    var frames := Frames(z, settings, packets);
    forall k | 0 <= k < |frames|
      ensures Undoes(decoder, k, frames[k], packets[k])
    {
      FrameUndone(z, settings, k, packets[k]);
    }
    DecodeJoined(decoder, frames, packets, rest);
    assert DecodeAll(decoder, |frames|, rest) == ([], Incomplete);
    assert packets + [] == packets;
  }

  /** Whatever packets were sent, with any change of the compression setting between them,
      and followed by at most one cut frame, the decoder yields exactly those packets and
      then waits for more. */
  lemma DecodeStream(z: Zlib, settings: Settings, packets: seq<Packet>, last: Packet, n: nat)
    requires Lawful(z) && AllSendable(z, settings, packets)
    requires Sendable(z, settings(|packets|), last)
    requires n < |FrameOf(z, settings(|packets|), last)|
    ensures var cut := FrameOf(z, settings(|packets|), last)[..n];
            DecodeAll(DecoderFor(z, settings), 0, Flatten(Frames(z, settings, packets)) + cut)
            == (packets, Incomplete)
  {
    CutFrameIsIncomplete(z, settings(|packets|), PacketData(last), n);
    DecodeFrames(z, settings, packets, FrameOf(z, settings(|packets|), last)[..n]);
  }

  lemma FramesPrefix(z: Zlib, settings: Settings, packets: seq<Packet>, k: nat)
    requires k <= |packets|
    ensures Frames(z, settings, packets)[..k] == Frames(z, settings, packets[..k])
  {
  }

  /** A stream of frames cut anywhere: the decoder yields exactly the packets whose frames arrived
      whole and then waits for more. */
  lemma {:induction false} DecodePrefix(z: Zlib, settings: Settings, packets: seq<Packet>, n: nat)
    requires Lawful(z) && AllSendable(z, settings, packets)
    requires n <= |Flatten(Frames(z, settings, packets))|
    ensures var frames := Frames(z, settings, packets);
            DecodeAll(DecoderFor(z, settings), 0, Flatten(frames)[..n]) == (packets[..Whole(frames, n)], Incomplete)
  {
    var frames := Frames(z, settings, packets);
    FlattenCut(frames, n);
    DecodeParts(z, settings, packets, frames, Whole(frames, n), n);
  }

  lemma {:induction false} DecodeParts(z: Zlib, settings: Settings, packets: seq<Packet>, frames: seq<seq<byte>>,
                                       k: nat, n: nat)
    requires Lawful(z) && AllSendable(z, settings, packets) && frames == Frames(z, settings, packets)
    requires n <= |Flatten(frames)| && k <= |packets| == |frames| && |Flatten(frames[..k])| <= n
    requires k == |frames| ==> Flatten(frames)[..n] == Flatten(frames)
    requires k < |frames| ==> CutAfter(frames, k, n)
    ensures DecodeAll(DecoderFor(z, settings), 0, Flatten(frames)[..n]) == (packets[..k], Incomplete)
  {
    if k == |packets| {
      assert packets[..k] == packets;
      DecodeWhole(z, settings, packets);
    } else {
      DecodeCut(z, settings, packets, k, n - |Flatten(frames[..k])|);
    }
  }

  /** The first `n` bytes are the first `k` frames and a proper part of the next one. */
  ghost predicate CutAfter(frames: seq<seq<byte>>, k: nat, n: nat)
    requires k < |frames| && |Flatten(frames[..k])| <= n <= |Flatten(frames)|
  {
    var m := n - |Flatten(frames[..k])|;
    m < |frames[k]| && Flatten(frames)[..n] == Flatten(frames[..k]) + frames[k][..m]
  }

  lemma {:induction false} DecodeCut(z: Zlib, settings: Settings, packets: seq<Packet>, k: nat, m: nat)
    requires Lawful(z) && AllSendable(z, settings, packets) && k < |packets|
    requires m < |Frames(z, settings, packets)[k]|
    ensures var frames := Frames(z, settings, packets);
            DecodeAll(DecoderFor(z, settings), 0, Flatten(frames[..k]) + frames[k][..m]) == (packets[..k], Incomplete)
  {
    FramesPrefix(z, settings, packets, k);
    DecodeStream(z, settings, packets[..k], packets[k], m);
  }

  lemma DecodeWhole(z: Zlib, settings: Settings, packets: seq<Packet>)
    requires Lawful(z) && AllSendable(z, settings, packets)
    ensures DecodeAll(DecoderFor(z, settings), 0, Flatten(Frames(z, settings, packets))) == (packets, Incomplete)
  {
    EmptyIsIncomplete(z, settings(|packets|));
    DecodeFrames(z, settings, packets, []);
    var stream := Flatten(Frames(z, settings, packets));
    assert stream + [] == stream;
  }
}
