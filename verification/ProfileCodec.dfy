/** The network form of game profiles. `units` gives the UTF-16 length of a byte string, or
    nothing when the bytes are not UTF-8; nothing else is assumed about it. */
module ProfileCodec {
  import opened Wrappers
  import opened Fallible
  import opened Bytes
  import opened Sequences
  import opened VarInt
  import opened ProfileProperties

  type Units = Text -> Option<nat>

  const MAX_PLAYER_NAME := 16
  const MAX_PROPERTY_NAME := 64
  const MAX_PROPERTY_VALUE := 32_767
  const MAX_PROPERTY_SIGNATURE := 1_024

  /** The byte limit of `write_prefixed`, whatever the limit of the field. */
  const DEFAULT_BOUND := 32_767

  // ---------------------------------------------------------------- validity

  predicate ValidText(units: Units, t: Text, max: nat) {
    units(t).Some? && units(t).value <= max && |t| <= max * 3
  }

  /** What `ProfileProperty::new` accepts. */
  predicate ValidProperty(units: Units, p: Property) {
    && ValidText(units, p.name, MAX_PROPERTY_NAME)
    && ValidText(units, p.value, MAX_PROPERTY_VALUE)
    && (p.signature.Some? ==> ValidText(units, p.signature.value, MAX_PROPERTY_SIGNATURE))
  }

  /** A player name has at most sixteen characters, all printable ASCII and not a space. */
  predicate ValidName(units: Units, name: Text) {
    && units(name).Some? && units(name).value <= MAX_PLAYER_NAME
    && forall i :: 0 <= i < |name| ==> 0x20 < name[i] < 0x7f
  }

  // ---------------------------------------------------------------- strings

  function WriteText(units: Units, t: Text, max: nat): Result<seq<byte>> {
    if !ValidText(units, t, max) || |t| > DEFAULT_BOUND then Err else Ok(Encode(|t|) + t)
  }

  function ReadText(units: Units, data: seq<byte>, max: nat): Result<(Text, seq<byte>)> {
    match Parse(data)
    case Value(n, size) =>
      if n < 0 || n > max * 3 || size + n > |data| then Err
      else
        var t := data[size..size + n];
        if ValidText(units, t, max) then Ok((t, data[size + n..])) else Err
    case _ => Err
  }

  lemma ReadWrittenText(units: Units, t: Text, max: nat, rest: seq<byte>)
    requires WriteText(units, t, max).Ok?
    ensures ReadText(units, WriteText(units, t, max).value + rest, max) == Ok((t, rest))
  {
    var data := Encode(|t|) + t + rest;
    assert data == Encode(|t|) + (t + rest);
    ParseEncode(|t|, t + rest);
    var size := |Encode(|t|)|;
    assert data[size..size + |t|] == t && data[size + |t|..] == rest;
  }

  // ---------------------------------------------------------------- properties

  function WriteSignature(units: Units, signature: Option<Text>): Result<seq<byte>> {
    match signature
    case None => Ok([0])
    case Some(t) =>
      match WriteText(units, t, MAX_PROPERTY_SIGNATURE)
      case Err => Err
      case Ok(bytes) => Ok([1] + bytes)
  }

  function ReadSignature(units: Units, data: seq<byte>): Result<(Option<Text>, seq<byte>)> {
    if data == [] then Err
    else if data[0] == 0 then Ok((None, data[1..]))
    else
      match ReadText(units, data[1..], MAX_PROPERTY_SIGNATURE)
      case Err => Err
      case Ok((t, rest)) => Ok((Some(t), rest))
  }

  function WriteProperty(units: Units, p: Property): Result<seq<byte>> {
    match WriteText(units, p.name, MAX_PROPERTY_NAME)
    case Err => Err
    case Ok(name) =>
      match WriteText(units, p.value, MAX_PROPERTY_VALUE)
      case Err => Err
      case Ok(value) =>
        match WriteSignature(units, p.signature)
        case Err => Err
        case Ok(signature) => Ok(name + value + signature)
  }

  function ReadProperty(units: Units, data: seq<byte>): Result<(Property, seq<byte>)> {
    match ReadText(units, data, MAX_PROPERTY_NAME)
    case Err => Err
    case Ok((name, afterName)) =>
      match ReadText(units, afterName, MAX_PROPERTY_VALUE)
      case Err => Err
      case Ok((value, afterValue)) =>
        match ReadSignature(units, afterValue)
        case Err => Err
        case Ok((signature, rest)) => Ok((Property(name, value, signature), rest))
  }

  lemma ReadWrittenSignature(units: Units, signature: Option<Text>, rest: seq<byte>)
    requires WriteSignature(units, signature).Ok?
    ensures ReadSignature(units, WriteSignature(units, signature).value + rest) == Ok((signature, rest))
  {
    if signature.Some? {
      var bytes := WriteText(units, signature.value, MAX_PROPERTY_SIGNATURE).value;
      assert ([1] + bytes + rest)[1..] == bytes + rest;
      ReadWrittenText(units, signature.value, MAX_PROPERTY_SIGNATURE, rest);
    } else {
      assert ([0] + rest)[1..] == rest;
    }
  }

  lemma ReadWrittenProperty(units: Units, p: Property, rest: seq<byte>)
    requires WriteProperty(units, p).Ok?
    ensures ReadProperty(units, WriteProperty(units, p).value + rest) == Ok((p, rest))
  {
    var name := WriteText(units, p.name, MAX_PROPERTY_NAME).value;
    var value := WriteText(units, p.value, MAX_PROPERTY_VALUE).value;
    var signature := WriteSignature(units, p.signature).value;
    assert name + value + signature + rest == name + (value + (signature + rest));
    ReadWrittenText(units, p.name, MAX_PROPERTY_NAME, value + (signature + rest));
    ReadWrittenText(units, p.value, MAX_PROPERTY_VALUE, signature + rest);
    ReadWrittenSignature(units, p.signature, rest);
  }

  // ---------------------------------------------------------------- lists of properties

  type Writer = Property -> Result<seq<byte>>
  type Reader = seq<byte> -> Result<(Property, seq<byte>)>

  function PropertyWriter(units: Units): Writer {
    (p: Property) => WriteProperty(units, p)
  }

  function PropertyReader(units: Units): Reader {
    (data: seq<byte>) => ReadProperty(units, data)
  }

  ghost predicate Undoes(read: Reader, write: Writer) {
    forall p: Property, rest: seq<byte> :: write(p).Ok? ==> read(write(p).value + rest) == Ok((p, rest))
  }

  function WriteEach(write: Writer, ps: seq<Property>): Result<seq<byte>>
    decreases |ps|
  {
    if ps == [] then Ok([])
    else
      match WriteEach(write, ps[..|ps| - 1])
      case Err => Err
      case Ok(before) =>
        match write(ps[|ps| - 1])
        case Err => Err
        case Ok(last) => Ok(before + last)
  }

  function ReadEach(read: Reader, data: seq<byte>, count: nat): Result<(seq<Property>, seq<byte>)>
    decreases count
  {
    if count == 0 then Ok(([], data))
    else
      match ReadEach(read, data, count - 1)
      case Err => Err
      case Ok((before, rest)) =>
        match read(rest)
        case Err => Err
        case Ok((last, after)) => Ok((before + [last], after))
  }

  lemma {:induction false} ReadWrittenEach(read: Reader, write: Writer, ps: seq<Property>, rest: seq<byte>)
    requires Undoes(read, write)
    requires WriteEach(write, ps).Ok?
    ensures ReadEach(read, WriteEach(write, ps).value + rest, |ps|) == Ok((ps, rest))
    decreases |ps|
  {
    if ps == [] {
      assert [] + rest == rest;
    } else {
      var n := |ps| - 1;
      var before := WriteEach(write, ps[..n]).value;
      var last := write(ps[n]).value;
      assert before + last + rest == before + (last + rest);
      ReadWrittenEach(read, write, ps[..n], last + rest);
      assert ps[..n] + [ps[n]] == ps;
    }
  }

  lemma PropertyUndone(units: Units)
    ensures Undoes(PropertyReader(units), PropertyWriter(units))
  {
    forall p: Property, rest: seq<byte> | PropertyWriter(units)(p).Ok?
      ensures PropertyReader(units)(PropertyWriter(units)(p).value + rest) == Ok((p, rest))
    {
      ReadWrittenProperty(units, p, rest);
    }
  }

  /** `write_properties_network`. */
  method WriteProperties(write: Writer, ps: seq<Property>) returns (r: Result<seq<byte>>)
    ensures r == if |ps| > MAX_PROPERTIES || WriteEach(write, ps).Err? then Err
                 else Ok(Encode(|ps|) + WriteEach(write, ps).value)
  {
    if |ps| > MAX_PROPERTIES {
      return Err;
    }
    var out: seq<byte> := [];
    for i := 0 to |ps|
      invariant WriteEach(write, ps[..i]) == Ok(out)
    {
      assert ps[..i + 1][..i] == ps[..i];
      var next := write(ps[i]);
      if next.Err? {
        WriteEachFails(write, ps, i + 1);
        return Err;
      }
      out := out + next.value;
    }
    assert ps[..|ps|] == ps;
    return Ok(Encode(|ps|) + out);
  }

  lemma {:induction false} WriteEachFails(write: Writer, ps: seq<Property>, n: nat)
    requires n <= |ps| && WriteEach(write, ps[..n]).Err?
    ensures WriteEach(write, ps).Err?
    decreases |ps|
  {
    if n == |ps| {
      assert ps[..n] == ps;
    } else {
      var m := |ps| - 1;
      assert ps[..m][..n] == ps[..n];
      WriteEachFails(write, ps[..m], n);
    }
  }

  /** What `read_properties_network` reads: a count of at most sixteen, then that many properties. */
  function ReadList(read: Reader, data: seq<byte>): Result<(seq<Property>, seq<byte>)> {
    match Parse(data)
    case Value(count, size) =>
      if count < 0 || count > MAX_PROPERTIES then Err else ReadEach(read, data[size..], count)
    case _ => Err
  }

  /** `read_properties_network`. */
  method ReadProperties(read: Reader, data: seq<byte>) returns (r: Result<(seq<Property>, seq<byte>)>)
    ensures r == ReadList(read, data)
  {
    var header := VarInt.Read(data);
    if !header.Value? || header.value < 0 || header.value > MAX_PROPERTIES {
      return Err;
    }
    r := ReadCounted(read, data[header.size..], header.value);
  }

  method ReadCounted(read: Reader, data: seq<byte>, count: nat) returns (r: Result<(seq<Property>, seq<byte>)>)
    ensures r == ReadEach(read, data, count)
  {
    var ps: seq<Property> := [];
    var rest := data;
    for i := 0 to count
      invariant ReadEach(read, data, i) == Ok((ps, rest))
    {
      var next := read(rest);
      if next.Err? {
        ReadEachFails(read, data, i + 1, count);
        return Err;
      }
      ps := ps + [next.value.0];
      rest := next.value.1;
    }
    return Ok((ps, rest));
  }

  lemma {:induction false} ReadEachFails(read: Reader, data: seq<byte>, n: nat, count: nat)
    requires n <= count && ReadEach(read, data, n).Err?
    ensures ReadEach(read, data, count).Err?
  {
    if n < count {
      ReadEachFails(read, data, n, count - 1);
    }
  }

  // ---------------------------------------------------------------- when a profile can be written

  /** A valid property can be written exactly when its value has at most 32767 bytes: the
      limit of the prefixed writer is narrower than the one the value was validated with. */
  lemma WritableIff(units: Units, p: Property)
    requires ValidProperty(units, p)
    ensures WriteProperty(units, p).Ok? <==> |p.value| <= 32_767
  {
  }

  lemma {:induction false} AllWritableIff(units: Units, ps: seq<Property>)
    requires forall i :: 0 <= i < |ps| ==> ValidProperty(units, ps[i])
    ensures WriteEach(PropertyWriter(units), ps).Ok?
       <==> forall i :: 0 <= i < |ps| ==> |ps[i].value| <= DEFAULT_BOUND
    decreases |ps|
  {
    if ps != [] {
      AllWritableIff(units, ps[..|ps| - 1]);
      WritableIff(units, ps[|ps| - 1]);
    }
  }

  // ---------------------------------------------------------------- whole profiles

  type Uuid = id: seq<byte> | |id| == 16 witness [0, 0, 0, 0, 0, 0, 0, 0, 0, 0, 0, 0, 0, 0, 0, 0]

  datatype Profile = Profile(id: Uuid, name: Text, properties: seq<Property>)

  ghost predicate ValidProperties(units: Units, ps: seq<Property>) {
    && |ps| <= MAX_PROPERTIES
    && forall i :: 0 <= i < |ps| ==> ValidProperty(units, ps[i])
  }

  /** What `GameProfile::new` constructs. */
  ghost predicate ValidProfile(units: Units, profile: Profile) {
    ValidName(units, profile.name) && ValidProperties(units, profile.properties) && Contiguous(profile.properties)
  }

  /** ASCII text has one UTF-16 unit for each byte. */
  ghost predicate CountsAscii(units: Units) {
    forall t: Text :: (forall i :: 0 <= i < |t| ==> t[i] < 0x80) ==> units(t) == Some(|t|)
  }

  function NewProfile(units: Units, id: Uuid, name: Text, properties: seq<Property>): Result<Profile> {
    if !ValidName(units, name) || |properties| > MAX_PROPERTIES then Err
    else Ok(Profile(id, name, Grouped(properties)))
  }

  function WriteProfile(units: Units, profile: Profile): Result<seq<byte>> {
    match WriteText(units, profile.name, MAX_PLAYER_NAME)
    case Err => Err
    case Ok(name) =>
      if |profile.properties| > MAX_PROPERTIES then Err
      else
        match WriteEach(PropertyWriter(units), profile.properties)
        case Err => Err
        case Ok(each) => Ok(profile.id + name + (Encode(|profile.properties|) + each))
  }

  function ReadProfile(units: Units, data: seq<byte>): Result<(Profile, seq<byte>)> {
    if |data| < 16 then Err
    else
      match ReadText(units, data[16..], MAX_PLAYER_NAME)
      case Err => Err
      case Ok((name, afterName)) =>
        match ReadList(PropertyReader(units), afterName)
        case Err => Err
        case Ok((properties, rest)) =>
          match NewProfile(units, data[..16], name, properties)
          case Err => Err
          case Ok(profile) => Ok((profile, rest))
  }

  lemma {:induction false} ReadWrittenList(read: Reader, write: Writer, ps: seq<Property>, rest: seq<byte>)
    requires Undoes(read, write)
    requires |ps| <= MAX_PROPERTIES && WriteEach(write, ps).Ok?
    ensures ReadList(read, Encode(|ps|) + WriteEach(write, ps).value + rest) == Ok((ps, rest))
  {
    var header, each := Encode(|ps|), WriteEach(write, ps).value;
    calc {
      ReadList(read, header + each + rest);
    == { Reassociate(header, each, rest); }
      ReadList(read, header + (each + rest));
    == { ReadHeader(read, |ps|, each + rest); }
      ReadEach(read, each + rest, |ps|);
    == { ReadWrittenEach(read, write, ps, rest); }
      Ok((ps, rest));
    }
  }

  lemma Reassociate(a: seq<byte>, b: seq<byte>, c: seq<byte>)
    ensures a + b + c == a + (b + c)
  {
  }

  lemma {:induction false} ReadHeader(read: Reader, count: nat, data: seq<byte>)
    requires count <= MAX_PROPERTIES
    ensures ReadList(read, Encode(count) + data) == ReadEach(read, data, count)
  {
    ParseEncode(count, data);
    assert (Encode(count) + data)[|Encode(count)|..] == data;
  }

  /** A player name always fits the writer. */
  lemma NameFits(units: Units, name: Text)
    requires CountsAscii(units) && ValidName(units, name)
    ensures WriteText(units, name, MAX_PLAYER_NAME).Ok?
  {
    assert units(name) == Some(|name|);
  }

  /** A profile can be written exactly when no property value exceeds 32767 bytes. */
  lemma ProfileWritableIff(units: Units, profile: Profile)
    requires CountsAscii(units) && ValidProfile(units, profile)
    ensures WriteProfile(units, profile).Ok?
       <==> forall i :: 0 <= i < |profile.properties| ==> |profile.properties[i].value| <= 32_767
  {
    NameFits(units, profile.name);
    AllWritableIff(units, profile.properties);
  }

  /** Writing a profile, reading it back and regrouping its properties gives the very same
      profile, and leaves the data that follows alone. */
  lemma ProfileRoundTrip(units: Units, profile: Profile, rest: seq<byte>)
    requires ValidProfile(units, profile) && WriteProfile(units, profile).Ok?
    ensures ReadProfile(units, WriteProfile(units, profile).value + rest) == Ok((profile, rest))
  {
    var name := WriteText(units, profile.name, MAX_PLAYER_NAME).value;
    var list := Encode(|profile.properties|) + WriteEach(PropertyWriter(units), profile.properties).value;
    var data := profile.id + name + list + rest;
    assert data[..16] == profile.id;
    assert data[16..] == name + (list + rest);
    ReadWrittenText(units, profile.name, MAX_PLAYER_NAME, list + rest);
    PropertyUndone(units);
    ReadWrittenList(PropertyReader(units), PropertyWriter(units), profile.properties, rest);
    ContiguousIsGrouped(profile.properties);
  }

  // ---------------------------------------------------------------- what a read yields

  ghost predicate Yields(units: Units, read: Reader) {
    forall data: seq<byte> :: read(data).Ok? ==> ValidProperty(units, read(data).value.0)
  }

  lemma {:induction false} ReadEachValid(units: Units, read: Reader, data: seq<byte>, count: nat)
    requires Yields(units, read) && ReadEach(read, data, count).Ok?
    ensures var ps := ReadEach(read, data, count).value.0;
            |ps| == count && forall i :: 0 <= i < count ==> ValidProperty(units, ps[i])
    decreases count
  {
    if count > 0 {
      ReadEachValid(units, read, data, count - 1);
      var before := ReadEach(read, data, count - 1).value;
      assert ValidProperty(units, read(before.1).value.0);
    }
  }

  /** Whatever bytes arrive, a profile that is read satisfies every limit and is grouped. */
  lemma ReadProfileValid(units: Units, data: seq<byte>)
    requires ReadProfile(units, data).Ok?
    ensures ValidProfile(units, ReadProfile(units, data).value.0)
  {
    var afterName := ReadText(units, data[16..], MAX_PLAYER_NAME).value.1;
    var header := Parse(afterName);
    assert Yields(units, PropertyReader(units));
    ReadEachValid(units, PropertyReader(units), afterName[header.size..], header.value);
    var ps := ReadList(PropertyReader(units), afterName).value.0;
    GroupedContiguous(ps);
    GroupedValid(units, ps);
  }

  lemma {:induction false} GroupedValid(units: Units, ps: seq<Property>)
    requires ValidProperties(units, ps)
    ensures ValidProperties(units, Grouped(ps))
  {
    GroupedPermutes(ps);
    var gs := Grouped(ps);
    assert |gs| == |multiset(gs)| == |multiset(ps)| == |ps|;
    forall i | 0 <= i < |gs|
      ensures ValidProperty(units, gs[i])
    {
      assert gs[i] in multiset(gs);
      assert gs[i] in ps;
    }
  }

  // ---------------------------------------------------------------- limits and layout

  /** A text of at most `max` UTF-16 units. */
  ghost predicate AtMost(units: Units, t: Text, max: nat) {
    units(t).Some? && units(t).value <= max
  }

  /** The limits: sixteen characters of a player name, none of them blank or outside ASCII; 64 units of
      a property name, 32767 of a value and 1024 of a signature, each with three bytes a unit. */
  lemma LimitsMean(units: Units, p: Property, name: Text)
    ensures ValidName(units, name) <==>
              AtMost(units, name, 16) && forall i :: 0 <= i < |name| ==> 33 <= name[i] <= 126
    ensures ValidProperty(units, p) <==>
              && AtMost(units, p.name, 64) && |p.name| <= 192
              && AtMost(units, p.value, 32_767) && |p.value| <= 98_301
              && (p.signature.None? || (AtMost(units, p.signature.value, 1_024) && |p.signature.value| <= 3_072))
  {
  }

  /** A profile is made from a valid name and at most sixteen properties. */
  lemma NewProfileExactly(units: Units, id: Uuid, name: Text, ps: seq<Property>)
    ensures NewProfile(units, id, name, ps).Ok? <==> ValidName(units, name) && |ps| <= 16
    ensures NewProfile(units, id, name, ps).Ok? ==>
              var profile := NewProfile(units, id, name, ps).value;
              profile.id == id && profile.name == name && SameMultimap(profile.properties, ps)
  {
    GroupedKeepsMultimap(ps);
  }

  /** A text as it is written: its length in bytes and the bytes. */
  function TextBytes(t: Text): seq<byte> {
    Encode(|t|) + t
  }

  /** A property as it is written: name, value, and a flag for the signature that follows it. */
  function PropertyBytes(p: Property): seq<byte> {
    TextBytes(p.name) + (TextBytes(p.value) + if p.signature.None? then [0] else [1] + TextBytes(p.signature.value))
  }

  lemma PropertyLayout(units: Units, p: Property)
    requires WriteProperty(units, p).Ok?
    ensures WriteProperty(units, p).value == PropertyBytes(p)
  {
  }

  function PropertyBlocks(ps: seq<Property>): (blocks: seq<seq<byte>>)
    ensures |blocks| == |ps|
  {
    seq(|ps|, i requires 0 <= i < |ps| => PropertyBytes(ps[i]))
  }

  lemma PropertyBlocksSnoc(ps: seq<Property>)
    requires ps != []
    ensures var n := |ps| - 1; PropertyBlocks(ps) == PropertyBlocks(ps[..n]) + [PropertyBytes(ps[n])]
  {
  }

  lemma {:induction false} EachLayout(units: Units, ps: seq<Property>)
    requires WriteEach(PropertyWriter(units), ps).Ok?
    ensures WriteEach(PropertyWriter(units), ps).value == Flatten(PropertyBlocks(ps))
    decreases |ps|
  {
    if ps != [] {
      var n := |ps| - 1;
      EachLayout(units, ps[..n]);
      PropertyLayout(units, ps[n]);
      PropertyBlocksSnoc(ps);
      FlattenSnoc(PropertyBlocks(ps[..n]), PropertyBytes(ps[n]));
    }
  }

  /** A profile as it is written: the sixteen bytes of the id, the name, the number of properties and
      the properties in order. */
  lemma ProfileLayout(units: Units, profile: Profile)
    requires WriteProfile(units, profile).Ok?
    ensures |profile.properties| <= 16
    ensures WriteProfile(units, profile).value
         == profile.id + TextBytes(profile.name)
            + (Encode(|profile.properties|) + Flatten(PropertyBlocks(profile.properties)))
  {
    EachLayout(units, profile.properties);
  }

  /** What is read for a text after a length: nothing for a negative or too large one, for too few
      bytes, or for bytes that are not a text within the limit. */
  lemma ReadTextExactly(units: Units, n: i32, data: seq<byte>, max: nat)
    ensures ReadText(units, Encode(ToU32(n)) + data, max)
         == if 0 <= n <= 3 * max && n <= |data| && AtMost(units, data[..n], max) then Ok((data[..n], data[n..]))
            else Err
  {
    ParseEncode(n, data);
    var all, size := Encode(ToU32(n)) + data, |Encode(ToU32(n))|;
    if 0 <= n <= |data| {
      assert all[size..size + n] == data[..n] && all[size + n..] == data[n..];
    }
  }

  /** A count outside zero to sixteen is refused, and a flag other than zero announces a signature. */
  lemma CountAndFlag(units: Units, read: Reader, n: i32, flag: byte, data: seq<byte>)
    ensures n < 0 || n > 16 ==> ReadList(read, Encode(ToU32(n)) + data).Err?
    ensures ReadSignature(units, [0] + data) == Ok((None, data))
    ensures flag != 0 ==>
              ReadSignature(units, [flag] + data)
              == if ReadText(units, data, 1_024).Err? then Err
                 else Ok((Some(ReadText(units, data, 1_024).value.0), ReadText(units, data, 1_024).value.1))
  {
    ParseEncode(n, data);
    assert ([flag] + data)[1..] == data && ([0] + data)[1..] == data;
  }

  /** The character U+4E00, three bytes of UTF-8 and one unit of UTF-16, `n` times. */
  function Ideographs(n: nat): Text {
    seq(3 * n, i => if i % 3 == 0 then 0xe4 else if i % 3 == 1 then 0xb8 else 0x80)
  }

  lemma IdeographAt(n: nat, k: nat)
    requires k < n
    ensures |Ideographs(n)| == 3 * n && Ideographs(n)[3 * k..3 * k + 3] == [0xe4, 0xb8, 0x80]
  {
  }

  /** The failing family in one example: 10923 such characters are a valid value of 10923 units
      that cannot be written. */
  lemma LongValueIsNotWritten(units: Units, p: Property)
    requires p == Property([], Ideographs(10_923), None)
    requires units([]) == Some(0) && units(Ideographs(10_923)) == Some(10_923)
    ensures ValidProperty(units, p) && WriteProperty(units, p).Err?
  {
    WritableIff(units, p);
  }
}
