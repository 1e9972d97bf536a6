/** The stream codec of item stack templates as it runs: loops over the entries of a patch, calls
    itself for nested templates, and counts the nesting of its thread. */
module TemplateCodec {
  import opened Wrappers
  import opened Fallible
  import opened Bytes
  import opened VarInt
  import opened ItemTemplate

  // ---------------------------------------------------------------- the depth counter

  const MAX_TEMPLATE_CODEC_DEPTH: nat := 512

  type Depth = d: nat | d <= MAX_TEMPLATE_CODEC_DEPTH

  /** The counter of a thread. Its type keeps it at 512 or below at all times. */
  class DepthCounter {
    var depth: Depth

    constructor ()
      ensures depth == 0
    {
      depth := 0;
    }

    method Enter() returns (entered: bool)
      modifies this
      ensures entered <==> old(depth) < MAX_TEMPLATE_CODEC_DEPTH
      ensures depth == if entered then old(depth) + 1 else old(depth)
    {
      entered := depth < MAX_TEMPLATE_CODEC_DEPTH;
      if entered {
        depth := depth + 1;
      }
    }

    /** Dropping the guard. */
    method Leave()
      requires depth > 0
      modifies this
      ensures depth == old(depth) - 1
    {
      depth := depth - 1;
    }

    /** The levels that were left when the current template was entered. */
    ghost function Inside(): (left: nat)
      reads this
      ensures left > 0
    {
      MAX_TEMPLATE_CODEC_DEPTH + 1 - depth
    }
  }

  // ---------------------------------------------------------------- writing with the counter

  lemma {:induction false} WriteSlotsFails(write: Writer, flagged: bool, slots: seq<Option<Template>>, n: nat)
    requires n <= |slots| && WriteSlots(write, flagged, slots[..n]).Err?
    ensures WriteSlots(write, flagged, slots).Err?
    decreases |slots|
  {
    if n == |slots| {
      assert slots[..n] == slots;
    } else {
      assert slots[..|slots| - 1][..n] == slots[..n];
      WriteSlotsFails(write, flagged, slots[..|slots| - 1], n);
    }
  }

  lemma {:induction false} WriteAddedFails(codec: Codec, write: Writer, added: seq<Component>, n: nat)
    requires n <= |added| && WriteAdded(codec, write, added[..n]).Err?
    ensures WriteAdded(codec, write, added).Err?
    decreases |added|
  {
    if n == |added| {
      assert added[..n] == added;
    } else {
      assert added[..|added| - 1][..n] == added[..n];
      WriteAddedFails(codec, write, added[..|added| - 1], n);
    }
  }

  lemma {:induction false} WriteRemovedFails(codec: Codec, removed: seq<nat>, n: nat)
    requires n <= |removed| && WriteRemoved(codec, removed[..n]).Err?
    ensures WriteRemoved(codec, removed).Err?
    decreases |removed|
  {
    if n == |removed| {
      assert removed[..n] == removed;
    } else {
      assert removed[..|removed| - 1][..n] == removed[..n];
      WriteRemovedFails(codec, removed[..|removed| - 1], n);
    }
  }

  /** `WriteTo for ItemStackTemplate`: on success and on every error the counter ends where it
      started. */
  method Write(codec: Codec, counter: DepthCounter, t: Template) returns (r: Result<seq<byte>>)
    modifies counter
    ensures counter.depth == old(counter.depth)
    ensures r == WriteTemplate(codec, MAX_TEMPLATE_CODEC_DEPTH - old(counter.depth), t)
    decreases MAX_TEMPLATE_CODEC_DEPTH - counter.depth, 0
  {
    ghost var left := MAX_TEMPLATE_CODEC_DEPTH - counter.depth;
    var entered := counter.Enter();
    if !entered {
      return Err;
    }
    assert counter.Inside() == left;
    r := WriteEntered(codec, counter, t);
    counter.Leave();
  }

  method WriteEntered(codec: Codec, counter: DepthCounter, t: Template) returns (r: Result<seq<byte>>)
    modifies counter
    ensures counter.depth == old(counter.depth)
    ensures r == WriteTemplate(codec, old(counter.Inside()), t)
    decreases MAX_TEMPLATE_CODEC_DEPTH - counter.depth, 5
  {
    if t.item >= I32_LIMIT {
      return Err;
    }
    var patch := WriteEntries(codec, counter, t.patch);
    return Then(Ok(Encode(t.item) + Encode(ToU32(t.count))), patch);
  }

  /** `WriteTo for DataComponentPatch`. */
  method WriteEntries(codec: Codec, counter: DepthCounter, p: Patch) returns (r: Result<seq<byte>>)
    modifies counter
    ensures counter.depth == old(counter.depth)
    ensures r == WritePatch(codec, Below(codec, old(counter.Inside())), p)
    decreases MAX_TEMPLATE_CODEC_DEPTH - counter.depth, 4
  {
    if |p.added| >= I32_LIMIT || |p.removed| >= I32_LIMIT {
      return Err;
    }
    var added := WriteComponents(codec, counter, p.added);
    if added.Err? {
      return Err;
    }
    var out: seq<byte> := [];
    for i := 0 to |p.removed|
      invariant WriteRemoved(codec, p.removed[..i]) == Ok(out)
    {
      assert p.removed[..i + 1][..i] == p.removed[..i];
      if codec.kinds(p.removed[i]).Unknown? {
        WriteRemovedFails(codec, p.removed, i + 1);
        return Err;
      }
      out := out + Encode(p.removed[i]);
    }
    assert p.removed[..|p.removed|] == p.removed;
    return Ok(Encode(|p.added|) + Encode(|p.removed|) + (added.value + out));
  }

  method WriteComponents(codec: Codec, counter: DepthCounter, added: seq<Component>) returns (r: Result<seq<byte>>)
    modifies counter
    ensures counter.depth == old(counter.depth)
    ensures r == WriteAdded(codec, Below(codec, old(counter.Inside())), added)
    decreases MAX_TEMPLATE_CODEC_DEPTH - counter.depth, 3
  {
    var out: seq<byte> := [];
    ghost var write := Below(codec, counter.Inside());
    for i := 0 to |added|
      invariant counter.depth == old(counter.depth)
      invariant WriteAdded(codec, write, added[..i]) == Ok(out)
    {
      assert added[..i + 1][..i] == added[..i];
      var value := WriteOneValue(codec, counter, added[i]);
      if value.Err? {
        WriteAddedFails(codec, write, added, i + 1);
        return Err;
      }
      out := out + (Encode(added[i].id) + value.value);
    }
    assert added[..|added|] == added;
    return Ok(out);
  }

  method WriteOneValue(codec: Codec, counter: DepthCounter, c: Component) returns (r: Result<seq<byte>>)
    modifies counter
    ensures counter.depth == old(counter.depth)
    ensures r == WriteValue(codec, Below(codec, old(counter.Inside())), c)
    decreases MAX_TEMPLATE_CODEC_DEPTH - counter.depth, 2
  {
    match (codec.kinds(c.id), c.value)
    case (SimpleKind, Simple(plain)) => r := codec.write(c.id, plain);
    case (NestedKind(shape), Nested(slots)) =>
      if !Shaped(shape, slots) {
        return Err;
      }
      var each := WriteList(codec, counter, shape.flagged, slots);
      r := Then(Ok(if shape.counted then Encode(|slots|) else []), each);
    case _ => r := Err;
  }

  /** `write_template_list` and the loop over container slots. */
  method WriteList(codec: Codec, counter: DepthCounter, flagged: bool, slots: seq<Option<Template>>)
    returns (r: Result<seq<byte>>)
    modifies counter
    ensures counter.depth == old(counter.depth)
    ensures r == WriteSlots(Below(codec, old(counter.Inside())), flagged, slots)
    decreases MAX_TEMPLATE_CODEC_DEPTH - counter.depth, 1
  {
    var out: seq<byte> := [];
    ghost var write := Below(codec, counter.Inside());
    for i := 0 to |slots|
      invariant counter.depth == old(counter.depth)
      invariant WriteSlots(write, flagged, slots[..i]) == Ok(out)
    {
      assert slots[..i + 1][..i] == slots[..i];
      var slot: Result<seq<byte>>;
      if slots[i].Some? {
        slot := Write(codec, counter, slots[i].value);
        slot := if flagged then Then(Ok([1]), slot) else slot;
      } else {
        slot := if flagged then Ok([0]) else Err;
      }
      if slot.Err? {
        WriteSlotsFails(write, flagged, slots, i + 1);
        return Err;
      }
      out := out + slot.value;
    }
    assert slots[..|slots|] == slots;
    return Ok(out);
  }

  // ---------------------------------------------------------------- reading with the counter

  lemma {:induction false} ReadSlotsFails(read: Reader, flagged: bool, data: seq<byte>, n: nat, count: nat)
    requires n <= count && ReadSlots(read, flagged, data, n).Err?
    ensures ReadSlots(read, flagged, data, count).Err?
  {
    if n < count {
      ReadSlotsFails(read, flagged, data, n, count - 1);
    }
  }

  lemma {:induction false} ReadAddedFails(one: ComponentReader, data: seq<byte>, n: nat, count: nat)
    requires n <= count && ReadAdded(one, data, n).Err?
    ensures ReadAdded(one, data, count).Err?
  {
    if n < count {
      ReadAddedFails(one, data, n, count - 1);
    }
  }

  lemma {:induction false} ReadRemovedFails(codec: Codec, start: Patch, data: seq<byte>, n: nat, count: nat)
    requires n <= count && ReadRemoved(codec, start, data, n).Err?
    ensures ReadRemoved(codec, start, data, count).Err?
  {
    if n < count {
      ReadRemovedFails(codec, start, data, n, count - 1);
    }
  }

  /** One more component, or the error it gives. */
  lemma ReadAddedNext(one: ComponentReader, data: seq<byte>, i: nat, count: nat, p: Patch, rest: seq<byte>)
    requires i < count && ReadAdded(one, data, i) == Ok((p, rest))
    ensures one(rest).Ok? ==>
              ReadAdded(one, data, i + 1) == Ok((InsertAdded(p, one(rest).value.0), one(rest).value.1))
    ensures one(rest).Err? ==> ReadAdded(one, data, count).Err?
  {
    if one(rest).Err? {
      ReadAddedFails(one, data, i + 1, count);
    }
  }

  /** One more slot, or the error it gives. */
  lemma ReadSlotsNext(read: Reader, flagged: bool, data: seq<byte>, i: nat, count: nat,
                      slots: seq<Option<Template>>, rest: seq<byte>, next: Result<(Option<Template>, seq<byte>)>)
    requires i < count && ReadSlots(read, flagged, data, i) == Ok((slots, rest))
    requires next == ReadSlot(read, flagged, rest)
    ensures next.Ok? ==> ReadSlots(read, flagged, data, i + 1) == Ok((slots + [next.value.0], next.value.1))
    ensures next.Err? ==> ReadSlots(read, flagged, data, count).Err?
  {
    if next.Err? {
      ReadSlotsFails(read, flagged, data, i + 1, count);
    }
  }

  /** `ReadFrom for ItemStackTemplate`. */
  method Read(codec: Codec, counter: DepthCounter, data: seq<byte>) returns (r: Result<(Template, seq<byte>)>)
    modifies counter
    ensures counter.depth == old(counter.depth)
    ensures r == ReadTemplate(codec, MAX_TEMPLATE_CODEC_DEPTH - old(counter.depth), data)
    decreases MAX_TEMPLATE_CODEC_DEPTH - counter.depth, 0
  {
    ghost var left := MAX_TEMPLATE_CODEC_DEPTH - counter.depth;
    var entered := counter.Enter();
    if !entered {
      return Err;
    }
    assert counter.Inside() == left;
    r := ReadEntered(codec, counter, data);
    counter.Leave();
  }

  method ReadEntered(codec: Codec, counter: DepthCounter, data: seq<byte>)
    returns (r: Result<(Template, seq<byte>)>)
    modifies counter
    ensures counter.depth == old(counter.depth)
    ensures r == ReadTemplate(codec, old(counter.Inside()), data)
    decreases MAX_TEMPLATE_CODEC_DEPTH - counter.depth, 7
  {
    var item := ReadNat(data);
    if item.Err? || item.value.0 >= codec.items {
      return Err;
    }
    var count := ReadVar(item.value.1);
    if count.Err? {
      return Err;
    }
    var patch := ReadEntries(codec, counter, count.value.1);
    if patch.Err? || !NonEmpty(codec, item.value.0, count.value.0) {
      return Err;
    }
    return Ok((Template(item.value.0, count.value.0, patch.value.0), patch.value.1));
  }

  /** `ReadFrom for DataComponentPatch`. */
  method ReadEntries(codec: Codec, counter: DepthCounter, data: seq<byte>) returns (r: Result<(Patch, seq<byte>)>)
    modifies counter
    ensures counter.depth == old(counter.depth)
    ensures r == ReadPatch(codec, BelowReader(codec, old(counter.Inside())), data)
    decreases MAX_TEMPLATE_CODEC_DEPTH - counter.depth, 6
  {
    var added := ReadNat(data);
    if added.Err? {
      return Err;
    }
    var removed := ReadNat(added.value.1);
    if removed.Err? {
      return Err;
    }
    var entries := ReadComponents(codec, counter, removed.value.1, added.value.0);
    if entries.Err? {
      return Err;
    }
    r := ReadRemovals(codec, entries.value.0, entries.value.1, removed.value.0);
  }

  method ReadRemovals(codec: Codec, start: Patch, data: seq<byte>, count: nat) returns (r: Result<(Patch, seq<byte>)>)
    ensures r == ReadRemoved(codec, start, data, count)
  {
    var p, rest := start, data;
    for i := 0 to count
      invariant ReadRemoved(codec, start, data, i) == Ok((p, rest))
    {
      var id := ReadNat(rest);
      if id.Err? || codec.kinds(id.value.0).Unknown? {
        ReadRemovedFails(codec, start, data, i + 1, count);
        return Err;
      }
      p, rest := InsertRemoved(p, id.value.0), id.value.1;
    }
    return Ok((p, rest));
  }

  method ReadComponents(codec: Codec, counter: DepthCounter, data: seq<byte>, count: nat)
    returns (r: Result<(Patch, seq<byte>)>)
    modifies counter
    ensures counter.depth == old(counter.depth)
    ensures r == ReadAdded(Components(codec, BelowReader(codec, old(counter.Inside()))), data, count)
    decreases MAX_TEMPLATE_CODEC_DEPTH - counter.depth, 5
  {
    var p, rest := Patch([], []), data;
    ghost var one := Components(codec, BelowReader(codec, counter.Inside()));
    for i := 0 to count
      invariant counter.depth == old(counter.depth)
      invariant ReadAdded(one, data, i) == Ok((p, rest))
    {
      ReadAddedNext(one, data, i, count, p, rest);
      var c := ReadOneComponent(codec, counter, rest);
      if c.Err? {
        return Err;
      }
      p, rest := InsertAdded(p, c.value.0), c.value.1;
    }
    return Ok((p, rest));
  }

  method ReadOneComponent(codec: Codec, counter: DepthCounter, data: seq<byte>)
    returns (r: Result<(Component, seq<byte>)>)
    modifies counter
    ensures counter.depth == old(counter.depth)
    ensures r == Components(codec, BelowReader(codec, old(counter.Inside())))(data)
    decreases MAX_TEMPLATE_CODEC_DEPTH - counter.depth, 4
  {
    var head := ReadNat(data);
    if head.Err? {
      return Err;
    }
    var id := head.value.0;
    match codec.kinds(id)
    case Unknown => return Err;
    case SimpleKind =>
      var plain := codec.read(id, head.value.1);
      if plain.Err? {
        return Err;
      }
      return Ok((Component(id, Simple(plain.value.0)), plain.value.1));
    case NestedKind(shape) =>
      var count := ReadCount(shape, head.value.1);
      if count.Err? {
        return Err;
      }
      var slots := ReadList(codec, counter, shape.flagged, count.value.1, count.value.0);
      if slots.Err? {
        return Err;
      }
      return Ok((Component(id, Nested(slots.value.0)), slots.value.1));
  }

  /** `read_template_list` and the loop over container slots. */
  method ReadList(codec: Codec, counter: DepthCounter, flagged: bool, data: seq<byte>, count: nat)
    returns (r: Result<(seq<Option<Template>>, seq<byte>)>)
    modifies counter
    ensures counter.depth == old(counter.depth)
    ensures r == ReadSlots(BelowReader(codec, old(counter.Inside())), flagged, data, count)
    decreases MAX_TEMPLATE_CODEC_DEPTH - counter.depth, 3
  {
    var slots: seq<Option<Template>>, rest := [], data;
    ghost var read := BelowReader(codec, counter.Inside());
    for i := 0 to count
      invariant counter.depth == old(counter.depth)
      invariant ReadSlots(read, flagged, data, i) == Ok((slots, rest))
    {
      var slot := ReadOneSlot(codec, counter, flagged, rest);
      ReadSlotsNext(read, flagged, data, i, count, slots, rest, slot);
      if slot.Err? {
        return Err;
      }
      slots, rest := slots + [slot.value.0], slot.value.1;
    }
    return Ok((slots, rest));
  }

  method ReadOneSlot(codec: Codec, counter: DepthCounter, flagged: bool, data: seq<byte>)
    returns (r: Result<(Option<Template>, seq<byte>)>)
    modifies counter
    ensures counter.depth == old(counter.depth)
    ensures r == ReadSlot(BelowReader(codec, old(counter.Inside())), flagged, data)
    decreases MAX_TEMPLATE_CODEC_DEPTH - counter.depth, 2
  {
    if !flagged {
      r := ReadFilled(codec, counter, data);
    } else if data == [] {
      r := Err;
    } else if data[0] == 0 {
      r := Ok((None, data[1..]));
    } else {
      r := ReadFilled(codec, counter, data[1..]);
    }
  }

  method ReadFilled(codec: Codec, counter: DepthCounter, data: seq<byte>)
    returns (r: Result<(Option<Template>, seq<byte>)>)
    modifies counter
    ensures counter.depth == old(counter.depth)
    ensures r == Filled(BelowReader(codec, old(counter.Inside()))(data))
    decreases MAX_TEMPLATE_CODEC_DEPTH - counter.depth, 1
  {
    var t := Read(codec, counter, data);
    r := Filled(t);
  }

  // ---------------------------------------------------------------- the whole stream

  /** From a fresh counter, a template is written exactly when it has at most 512 levels and all
      of it can be written, and reading gives it back exactly when all of it is sound. The bytes
      of a deeper tree, written with room enough, are rejected by the reader. */
  lemma {:induction false} StreamRoundTrip(codec: Codec, t: Template, rest: seq<byte>)
    requires Lawful(codec) && AllMaps(t)
    requires Everywhere(t, (c: Template) => Encodable(codec, c))
    ensures var written := WriteTemplate(codec, 512, t);
            && (written.Ok? <==> Height(t) <= 512)
            && (written.Ok? ==>
                  ReadTemplate(codec, 512, written.value + rest)
                  == if AllSound(codec, t) then Ok((t, rest)) else Err)
    ensures var unbounded := WriteTemplate(codec, Height(t), t);
            && unbounded.Ok?
            && (Height(t) > 512 ==>
                  ReadTemplate(codec, 512, unbounded.value + rest).Err?)
  {
    WriteTemplateIff(codec, MAX_TEMPLATE_CODEC_DEPTH, t);
    WriteTemplateIff(codec, Height(t), t);
    if Height(t) <= MAX_TEMPLATE_CODEC_DEPTH {
      ReadWritten(codec, MAX_TEMPLATE_CODEC_DEPTH, MAX_TEMPLATE_CODEC_DEPTH, t, rest);
    } else {
      ReadWritten(codec, Height(t), MAX_TEMPLATE_CODEC_DEPTH, t, rest);
    }
  }
}
