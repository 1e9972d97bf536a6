/** Item stack templates nest through their components, so their stream codec is recursive and
    guarded by a depth counter. */
module ItemTemplate {
  import opened Wrappers
  import opened Fallible
  import opened Bytes
  import opened Sequences
  import opened VarInt

  // ---------------------------------------------------------------- templates

  /** The value of any component that holds no templates. */
  type Plain = seq<byte>

  datatype Template = Template(item: nat, count: i32, patch: Patch)

  /** A component patch, listed in some order: what it adds and what it removes. */
  datatype Patch = Patch(added: seq<Component>, removed: seq<nat>)

  datatype Component = Component(id: nat, value: Value)

  datatype Value = Simple(plain: Plain) | Nested(slots: seq<Option<Template>>)

  /** How a component with nested templates is laid out. Use remainders and sulfur cubes hold one
      bare template; charged projectiles and bundles hold a counted list; container contents hold
      a counted list of flagged slots. */
  datatype Shape = Shape(counted: bool, max: Option<nat>, flagged: bool)

  datatype Kind = Unknown | SimpleKind | NestedKind(shape: Shape)

  /** The registries and the codecs of the other components. */
  datatype Codec = Codec(
    items: nat,
    air: nat,
    kinds: nat -> Kind,
    write: (nat, Plain) -> Result<seq<byte>>,
    read: (nat, seq<byte>) -> Result<(Plain, seq<byte>)>)

  const I32_LIMIT: nat := 0x8000_0000

  ghost predicate Lawful(codec: Codec) {
    && (forall id: nat :: codec.kinds(id) != Unknown ==> id < I32_LIMIT)
    && (forall id: nat, v: Plain, rest: seq<byte> :: codec.write(id, v).Ok? ==>
          codec.read(id, codec.write(id, v).value + rest) == Ok((v, rest)))
  }

  type Writer = Template -> Result<seq<byte>>
  type Reader = seq<byte> -> Result<(Template, seq<byte>)>

  // ---------------------------------------------------------------- writing

  /** One write after another; the first error ends both. */
  function Then(a: Result<seq<byte>>, b: Result<seq<byte>>): Result<seq<byte>> {
    if a.Err? || b.Err? then Err else Ok(a.value + b.value)
  }

  function WriteSlot(write: Writer, flagged: bool, slot: Option<Template>): Result<seq<byte>> {
    match slot
    case None => if flagged then Ok([0]) else Err
    case Some(t) => if flagged then Then(Ok([1]), write(t)) else write(t)
  }

  function WriteSlots(write: Writer, flagged: bool, slots: seq<Option<Template>>): Result<seq<byte>>
    decreases |slots|
  {
    if slots == [] then Ok([])
    else
      Then(WriteSlots(write, flagged, slots[..|slots| - 1]), WriteSlot(write, flagged, slots[|slots| - 1]))
  }

  /** The shape admits the slots; for the uncounted shapes this is the type of the component. */
  predicate Shaped(shape: Shape, slots: seq<Option<Template>>) {
    && (if shape.counted then
          |slots| < I32_LIMIT && (shape.max.Some? ==> |slots| <= shape.max.value)
        else
          |slots| == 1)
    && (!shape.flagged ==> forall i :: 0 <= i < |slots| ==> slots[i].Some?)
  }

  function WriteNested(write: Writer, shape: Shape, slots: seq<Option<Template>>): Result<seq<byte>> {
    if !Shaped(shape, slots) then Err
    else Then(Ok(if shape.counted then Encode(|slots|) else []), WriteSlots(write, shape.flagged, slots))
  }

  function WriteValue(codec: Codec, write: Writer, c: Component): Result<seq<byte>> {
    match (codec.kinds(c.id), c.value)
    case (SimpleKind, Simple(plain)) => codec.write(c.id, plain)
    case (NestedKind(shape), Nested(slots)) => WriteNested(write, shape, slots)
    case _ => Err
  }

  function WriteAdded(codec: Codec, write: Writer, added: seq<Component>): Result<seq<byte>>
    decreases |added|
  {
    if added == [] then Ok([])
    else
      var last := added[|added| - 1];
      Then(WriteAdded(codec, write, added[..|added| - 1]), Then(Ok(Encode(last.id)), WriteValue(codec, write, last)))
  }

  function WriteRemoved(codec: Codec, removed: seq<nat>): Result<seq<byte>>
    decreases |removed|
  {
    if removed == [] then Ok([])
    else
      var last := removed[|removed| - 1];
      Then(WriteRemoved(codec, removed[..|removed| - 1]),
           if codec.kinds(last).Unknown? then Err else Ok(Encode(last)))
  }

  function WritePatch(codec: Codec, write: Writer, p: Patch): Result<seq<byte>> {
    if |p.added| >= I32_LIMIT || |p.removed| >= I32_LIMIT then Err
    else
      Then(Ok(Encode(|p.added|) + Encode(|p.removed|)),
           Then(WriteAdded(codec, write, p.added), WriteRemoved(codec, p.removed)))
  }

  /** What writing a template means while `left` levels of nesting are left. */
  function WriteTemplate(codec: Codec, left: nat, t: Template): Result<seq<byte>>
    decreases left
  {
    if left == 0 || t.item >= I32_LIMIT then Err
    else
      Then(Ok(Encode(t.item) + Encode(ToU32(t.count))), WritePatch(codec, Below(codec, left), t.patch))
  }

  /** The writer for the templates one level further down. */
  function Below(codec: Codec, left: nat): Writer
    requires left > 0
    decreases left, 0
  {
    (t: Template) => WriteTemplate(codec, left - 1, t)
  }

  // ---------------------------------------------------------------- reading

  function ReadVar(data: seq<byte>): Result<(i32, seq<byte>)> {
    match Parse(data)
    case Value(v, size) => Ok((v, data[size..]))
    case _ => Err
  }

  /** `read_non_negative_varint`. */
  function ReadNat(data: seq<byte>): Result<(nat, seq<byte>)> {
    match ReadVar(data)
    case Ok((v, rest)) => if v < 0 then Err else Ok((v, rest))
    case Err => Err
  }

  function ReadSlot(read: Reader, flagged: bool, data: seq<byte>): Result<(Option<Template>, seq<byte>)> {
    if flagged && data == [] then Err
    else if flagged && data[0] == 0 then Ok((None, data[1..]))
    else Filled(read(if flagged then data[1..] else data))
  }

  function Filled(t: Result<(Template, seq<byte>)>): Result<(Option<Template>, seq<byte>)> {
    match t
    case Ok((t, rest)) => Ok((Some(t), rest))
    case Err => Err
  }

  function ReadSlots(read: Reader, flagged: bool, data: seq<byte>, count: nat)
    : Result<(seq<Option<Template>>, seq<byte>)>
    decreases count
  {
    if count == 0 then Ok(([], data))
    else
      match ReadSlots(read, flagged, data, count - 1)
      case Err => Err
      case Ok((before, rest)) =>
        match ReadSlot(read, flagged, rest)
        case Err => Err
        case Ok((slot, after)) => Ok((before + [slot], after))
  }

  function ReadCount(shape: Shape, data: seq<byte>): Result<(nat, seq<byte>)> {
    if !shape.counted then Ok((1, data))
    else
      match ReadNat(data)
      case Err => Err
      case Ok((count, rest)) => if shape.max.Some? && count > shape.max.value then Err else Ok((count, rest))
  }

  function ReadNested(read: Reader, shape: Shape, data: seq<byte>): Result<(seq<Option<Template>>, seq<byte>)> {
    match ReadCount(shape, data)
    case Err => Err
    case Ok((count, rest)) => ReadSlots(read, shape.flagged, rest, count)
  }

  function ReadValue(codec: Codec, read: Reader, id: nat, data: seq<byte>): Result<(Value, seq<byte>)> {
    match codec.kinds(id)
    case Unknown => Err
    case SimpleKind =>
      (match codec.read(id, data)
       case Err => Err
       case Ok((plain, rest)) => Ok((Simple(plain), rest)))
    case NestedKind(shape) =>
      (match ReadNested(read, shape, data)
       case Err => Err
       case Ok((slots, rest)) => Ok((Nested(slots), rest)))
  }

  function ReadComponent(codec: Codec, read: Reader, data: seq<byte>): Result<(Component, seq<byte>)> {
    match ReadNat(data)
    case Err => Err
    case Ok((id, afterId)) =>
      match ReadValue(codec, read, id, afterId)
      case Err => Err
      case Ok((value, rest)) => Ok((Component(id, value), rest))
  }

  /** Where a component is listed, or the length of the list. */
  function Find(added: seq<Component>, id: nat): (i: nat)
    ensures i <= |added|
    ensures i < |added| ==> added[i].id == id
    ensures forall j :: 0 <= j < i ==> added[j].id != id
  {
    if added == [] then 0 else if added[0].id == id then 0 else 1 + Find(added[1..], id)
  }

  /** Inserting into the map of entries: a later entry for an id replaces the earlier one. */
  function InsertAdded(p: Patch, c: Component): Patch {
    var i := Find(p.added, c.id);
    if i < |p.added| then p.(added := p.added[i := c]) else p.(added := p.added + [c])
  }

  function InsertRemoved(p: Patch, id: nat): Patch {
    var i := Find(p.added, id);
    if i < |p.added| then Patch(p.added[..i] + p.added[i + 1..], p.removed + [id])
    else if id in p.removed then p
    else p.(removed := p.removed + [id])
  }

  type ComponentReader = seq<byte> -> Result<(Component, seq<byte>)>

  function Components(codec: Codec, read: Reader): ComponentReader {
    (data: seq<byte>) => ReadComponent(codec, read, data)
  }

  function ReadAdded(one: ComponentReader, data: seq<byte>, count: nat): Result<(Patch, seq<byte>)>
    decreases count
  {
    if count == 0 then Ok((Patch([], []), data))
    else
      match ReadAdded(one, data, count - 1)
      case Err => Err
      case Ok((before, rest)) =>
        match one(rest)
        case Err => Err
        case Ok((c, after)) => Ok((InsertAdded(before, c), after))
  }

  function ReadRemoved(codec: Codec, start: Patch, data: seq<byte>, count: nat): Result<(Patch, seq<byte>)>
    decreases count
  {
    if count == 0 then Ok((start, data))
    else
      match ReadRemoved(codec, start, data, count - 1)
      case Err => Err
      case Ok((before, rest)) =>
        match ReadNat(rest)
        case Err => Err
        case Ok((id, after)) =>
          if codec.kinds(id).Unknown? then Err else Ok((InsertRemoved(before, id), after))
  }

  function ReadPatch(codec: Codec, read: Reader, data: seq<byte>): Result<(Patch, seq<byte>)> {
    match ReadNat(data)
    case Err => Err
    case Ok((added, rest)) =>
      match ReadNat(rest)
      case Err => Err
      case Ok((removed, after)) =>
        match ReadAdded(Components(codec, read), after, added)
        case Err => Err
        case Ok((p, tail)) => ReadRemoved(codec, p, tail, removed)
  }

  /** The check of `from_stream`. */
  predicate NonEmpty(codec: Codec, item: nat, count: i32) {
    item != codec.air && count != 0
  }

  /** What reading a template means while `left` levels of nesting are left. */
  function ReadTemplate(codec: Codec, left: nat, data: seq<byte>): Result<(Template, seq<byte>)>
    decreases left
  {
    if left == 0 then Err
    else
      match ReadNat(data)
      case Err => Err
      case Ok((item, afterItem)) =>
        if item >= codec.items then Err
        else
          match ReadVar(afterItem)
          case Err => Err
          case Ok((count, afterCount)) =>
            match ReadPatch(codec, BelowReader(codec, left), afterCount)
            case Err => Err
            case Ok((patch, rest)) =>
              if NonEmpty(codec, item, count) then Ok((Template(item, count, patch), rest)) else Err
  }

  function BelowReader(codec: Codec, left: nat): Reader
    requires left > 0
    decreases left, 0
  {
    (data: seq<byte>) => ReadTemplate(codec, left - 1, data)
  }

  // ---------------------------------------------------------------- trees

  ghost predicate SlotsAll(slots: seq<Option<Template>>, p: Template -> bool) {
    forall i :: 0 <= i < |slots| && slots[i].Some? ==> p(slots[i].value)
  }

  ghost predicate ValueAll(v: Value, p: Template -> bool) {
    v.Nested? ==> SlotsAll(v.slots, p)
  }

  /** Every template directly inside the components satisfies `p`. */
  ghost predicate AddedAll(added: seq<Component>, p: Template -> bool) {
    forall i :: 0 <= i < |added| ==> ValueAll(added[i].value, p)
  }

  /** The levels of nesting. */
  function Height(t: Template): nat
    decreases t
  {
    1 + HeightPatch(t.patch, |t.patch.added|)
  }

  /** The highest tree inside the first `n` components. */
  function HeightPatch(p: Patch, n: nat): nat
    requires n <= |p.added|
    decreases p, n
  {
    if n == 0 then 0
    else
      var value := p.added[n - 1].value;
      Max(HeightPatch(p, n - 1), if value.Nested? then HeightValue(value, |value.slots|) else 0)
  }

  /** The highest tree in the first `n` slots. */
  function HeightValue(value: Value, n: nat): nat
    requires value.Nested? && n <= |value.slots|
    decreases value, n
  {
    if n == 0 then 0
    else
      var slot := value.slots[n - 1];
      Max(HeightValue(value, n - 1), if slot.Some? then Height(slot.value) else 0)
  }

  function Max(a: nat, b: nat): nat {
    if a < b then b else a
  }

  /** The template and every template at any depth inside it satisfy `p`. */
  ghost predicate Everywhere(t: Template, p: Template -> bool)
    decreases t
  {
    && p(t)
    && forall i :: 0 <= i < |t.patch.added| ==> EverywhereIn(t.patch.added[i].value, p)
  }

  ghost predicate EverywhereIn(value: Value, p: Template -> bool)
    decreases value
  {
    value.Nested? ==> forall i :: 0 <= i < |value.slots| && value.slots[i].Some? ==>
      Everywhere(value.slots[i].value, p)
  }

  lemma {:induction false} EverywhereBelow(t: Template, p: Template -> bool)
    ensures Everywhere(t, p) <==> p(t) && AddedAll(t.patch.added, (c: Template) => Everywhere(c, p))
  {
    var q := (c: Template) => Everywhere(c, p);
    if p(t) {
      forall i | 0 <= i < |t.patch.added|
        ensures EverywhereIn(t.patch.added[i].value, p) <==> ValueAll(t.patch.added[i].value, q)
      {
      }
    }
  }

  lemma {:induction false} HeightBelow(t: Template, n: nat)
    ensures Height(t) <= n + 1 <==> AddedAll(t.patch.added, (c: Template) => Height(c) <= n)
  {
    HeightPatchBelow(t.patch, |t.patch.added|, n);
    assert t.patch.added[..|t.patch.added|] == t.patch.added;
  }

  lemma {:induction false} HeightPatchBelow(p: Patch, k: nat, n: nat)
    requires k <= |p.added|
    ensures HeightPatch(p, k) <= n <==> AddedAll(p.added[..k], (c: Template) => Height(c) <= n)
    decreases k
  {
    if k > 0 {
      HeightPatchBelow(p, k - 1, n);
      var value := p.added[k - 1].value;
      var low := (c: Template) => Height(c) <= n;
      if value.Nested? {
        HeightValueBelow(value, |value.slots|, n);
        assert value.slots[..|value.slots|] == value.slots;
      }
      assert p.added[..k] == p.added[..k - 1] + [p.added[k - 1]];
      AddedAllSnoc(p.added[..k - 1], p.added[k - 1], low);
    }
  }

  lemma {:induction false} HeightValueBelow(value: Value, k: nat, n: nat)
    requires value.Nested? && k <= |value.slots|
    ensures HeightValue(value, k) <= n <==> SlotsAll(value.slots[..k], (c: Template) => Height(c) <= n)
    decreases k
  {
    if k > 0 {
      HeightValueBelow(value, k - 1, n);
      assert value.slots[..k] == value.slots[..k - 1] + [value.slots[k - 1]];
      SlotsAllSnoc(value.slots[..k - 1], value.slots[k - 1], (c: Template) => Height(c) <= n);
    }
  }

  lemma AddedAllSnoc(added: seq<Component>, c: Component, p: Template -> bool)
    ensures AddedAll(added + [c], p) <==> AddedAll(added, p) && ValueAll(c.value, p)
  {
    var longer := added + [c];
    if AddedAll(longer, p) {
      assert longer[|added|] == c;
      forall i | 0 <= i < |added|
        ensures ValueAll(added[i].value, p)
      {
        assert longer[i] == added[i];
      }
    }
  }

  lemma SlotsAllSnoc(slots: seq<Option<Template>>, slot: Option<Template>, p: Template -> bool)
    ensures SlotsAll(slots + [slot], p) <==> SlotsAll(slots, p) && (slot.Some? ==> p(slot.value))
  {
    var longer := slots + [slot];
    if SlotsAll(longer, p) {
      assert longer[|slots|] == slot;
      forall i | 0 <= i < |slots| && slots[i].Some?
        ensures p(slots[i].value)
      {
        assert longer[i] == slots[i];
      }
    }
  }

  // ---------------------------------------------------------------- when a template can be written

  predicate ComponentEncodable(codec: Codec, c: Component) {
    match (codec.kinds(c.id), c.value)
    case (SimpleKind, Simple(plain)) => codec.write(c.id, plain).Ok?
    case (NestedKind(shape), Nested(slots)) => Shaped(shape, slots)
    case _ => false
  }

  /** The template itself can be written, whatever is nested in it. */
  ghost predicate Encodable(codec: Codec, t: Template) {
    && t.item < I32_LIMIT
    && |t.patch.added| < I32_LIMIT && |t.patch.removed| < I32_LIMIT
    && (forall i :: 0 <= i < |t.patch.added| ==> ComponentEncodable(codec, t.patch.added[i]))
    && (forall i :: 0 <= i < |t.patch.removed| ==> !codec.kinds(t.patch.removed[i]).Unknown?)
  }

  lemma {:induction false} WriteSlotsIff(write: Writer, flagged: bool, slots: seq<Option<Template>>)
    requires !flagged ==> forall i :: 0 <= i < |slots| ==> slots[i].Some?
    ensures WriteSlots(write, flagged, slots).Ok? <==> SlotsAll(slots, (c: Template) => write(c).Ok?)
    decreases |slots|
  {
    if slots != [] {
      var n := |slots| - 1;
      WriteSlotsIff(write, flagged, slots[..n]);
      assert slots == slots[..n] + [slots[n]];
      SlotsAllSnoc(slots[..n], slots[n], (c: Template) => write(c).Ok?);
    }
  }

  lemma WriteValueIff(codec: Codec, write: Writer, c: Component)
    ensures WriteValue(codec, write, c).Ok?
       <==> ComponentEncodable(codec, c) && ValueAll(c.value, (t: Template) => write(t).Ok?)
  {
    if c.value.Nested? && codec.kinds(c.id).NestedKind? {
      var shape := codec.kinds(c.id).shape;
      if Shaped(shape, c.value.slots) {
        WriteSlotsIff(write, shape.flagged, c.value.slots);
      }
    }
  }

  lemma {:induction false} WriteAddedIff(codec: Codec, write: Writer, added: seq<Component>)
    ensures WriteAdded(codec, write, added).Ok?
       <==> && (forall i :: 0 <= i < |added| ==> ComponentEncodable(codec, added[i]))
            && AddedAll(added, (t: Template) => write(t).Ok?)
    decreases |added|
  {
    if added != [] {
      var n := |added| - 1;
      WriteAddedIff(codec, write, added[..n]);
      WriteValueIff(codec, write, added[n]);
      assert added == added[..n] + [added[n]];
      AddedAllSnoc(added[..n], added[n], (t: Template) => write(t).Ok?);
    }
  }

  lemma {:induction false} WriteRemovedIff(codec: Codec, removed: seq<nat>)
    ensures WriteRemoved(codec, removed).Ok?
       <==> forall i :: 0 <= i < |removed| ==> !codec.kinds(removed[i]).Unknown?
    decreases |removed|
  {
    if removed != [] {
      WriteRemovedIff(codec, removed[..|removed| - 1]);
    }
  }

  /** A template is written exactly when it is not nested deeper than the levels left and
      every template in it can be written. */
  lemma {:induction false} WriteTemplateIff(codec: Codec, left: nat, t: Template)
    ensures WriteTemplate(codec, left, t).Ok?
       <==> Height(t) <= left && Everywhere(t, (c: Template) => Encodable(codec, c))
    decreases left
  {
    if left > 0 {
      var ok := (c: Template) => Encodable(codec, c);
      var write := Below(codec, left);
      WriteAddedIff(codec, write, t.patch.added);
      WriteRemovedIff(codec, t.patch.removed);
      HeightBelow(t, left - 1);
      EverywhereBelow(t, ok);
      forall c: Template
        ensures write(c).Ok? <==> Height(c) <= left - 1 && Everywhere(c, ok)
      {
        WriteTemplateIff(codec, left - 1, c);
      }
      AddedAllAnd(t.patch.added, (c: Template) => write(c).Ok?, (c: Template) => Height(c) <= left - 1,
                  (c: Template) => Everywhere(c, ok));
    }
  }

  lemma AddedAllAnd(added: seq<Component>, both: Template -> bool, one: Template -> bool, two: Template -> bool)
    requires forall c: Template :: both(c) <==> one(c) && two(c)
    ensures AddedAll(added, both) <==> AddedAll(added, one) && AddedAll(added, two)
  {
    forall i | 0 <= i < |added|
      ensures ValueAll(added[i].value, both) <==> ValueAll(added[i].value, one) && ValueAll(added[i].value, two)
    {
    }
  }

  // ---------------------------------------------------------------- reading what was written

  /** On the templates of `dom`, the reader gives back what the writer wrote exactly for the
      templates it should accept, and rejects the others. */
  ghost predicate Inverse(write: Writer, read: Reader, dom: Template -> bool, good: Template -> bool) {
    forall c: Template, rest: seq<byte> :: dom(c) && write(c).Ok? ==>
      read(write(c).value + rest) == if good(c) then Ok((c, rest)) else Err
  }

  lemma ReadVarWritten(v: i32, rest: seq<byte>)
    ensures ReadVar(Encode(ToU32(v)) + rest) == Ok((v, rest))
  {
    ParseEncode(v, rest);
  }

  lemma {:induction false} ReadNatWritten(n: nat, rest: seq<byte>)
    requires n < I32_LIMIT
    ensures ReadNat(Encode(n) + rest) == Ok((n, rest))
  {
    ReadVarWritten(n, rest);
  }

  lemma ReadSlotWritten(write: Writer, read: Reader, dom: Template -> bool, good: Template -> bool,
                        flagged: bool, slot: Option<Template>, rest: seq<byte>)
    requires Inverse(write, read, dom, good) && WriteSlot(write, flagged, slot).Ok?
    requires slot.Some? ==> dom(slot.value)
    ensures ReadSlot(read, flagged, WriteSlot(write, flagged, slot).value + rest)
         == if slot.Some? ==> good(slot.value) then Ok((slot, rest)) else Err
  {
    var data := WriteSlot(write, flagged, slot).value + rest;
    if slot.Some? {
      assert flagged ==> data[1..] == write(slot.value).value + rest;
    } else {
      assert data[1..] == rest;
    }
  }

  lemma {:induction false} ReadSlotsWritten(write: Writer, read: Reader, dom: Template -> bool, good: Template -> bool,
                                            flagged: bool, slots: seq<Option<Template>>, rest: seq<byte>)
    requires Inverse(write, read, dom, good) && WriteSlots(write, flagged, slots).Ok?
    requires SlotsAll(slots, dom)
    ensures ReadSlots(read, flagged, WriteSlots(write, flagged, slots).value + rest, |slots|)
         == if SlotsAll(slots, good) then Ok((slots, rest)) else Err
    decreases |slots|
  {
    if slots == [] {
      assert [] + rest == rest;
    } else {
      var n := |slots| - 1;
      var init, last := slots[..n], slots[n];
      assert slots == init + [last];
      SlotsAllSnoc(init, last, dom);
      SlotsAllSnoc(init, last, good);
      var a, b := WriteSlots(write, flagged, init).value, WriteSlot(write, flagged, last).value;
      assert a + b + rest == a + (b + rest);
      ReadSlotsWritten(write, read, dom, good, flagged, init, b + rest);
      ReadSlotWritten(write, read, dom, good, flagged, last, rest);
    }
  }

  lemma ReadNestedWritten(write: Writer, read: Reader, dom: Template -> bool, good: Template -> bool,
                          shape: Shape, slots: seq<Option<Template>>, rest: seq<byte>)
    requires Inverse(write, read, dom, good) && WriteNested(write, shape, slots).Ok?
    requires SlotsAll(slots, dom)
    ensures ReadNested(read, shape, WriteNested(write, shape, slots).value + rest)
         == if SlotsAll(slots, good) then Ok((slots, rest)) else Err
  {
    var each := WriteSlots(write, shape.flagged, slots).value;
    var head := if shape.counted then Encode(|slots|) else [];
    calc {
      ReadNested(read, shape, head + each + rest);
    == { assert head + each + rest == head + (each + rest); }
      ReadNested(read, shape, head + (each + rest));
    == { ReadCountWritten(shape, slots, each + rest); }
      ReadSlots(read, shape.flagged, each + rest, |slots|);
    == { ReadSlotsWritten(write, read, dom, good, shape.flagged, slots, rest); }
      if SlotsAll(slots, good) then Ok((slots, rest)) else Err;
    }
  }

  lemma {:induction false} ReadCountWritten(shape: Shape, slots: seq<Option<Template>>, rest: seq<byte>)
    requires Shaped(shape, slots)
    ensures ReadCount(shape, (if shape.counted then Encode(|slots|) else []) + rest) == Ok((|slots|, rest))
  {
    if shape.counted {
      ReadNatWritten(|slots|, rest);
    } else {
      assert [] + rest == rest;
    }
  }

  lemma ReadComponentWritten(codec: Codec, write: Writer, read: Reader, dom: Template -> bool, good: Template -> bool,
                             c: Component, rest: seq<byte>)
    requires Lawful(codec) && Inverse(write, read, dom, good) && WriteValue(codec, write, c).Ok?
    requires ValueAll(c.value, dom)
    ensures ReadComponent(codec, read, Encode(c.id) + WriteValue(codec, write, c).value + rest)
         == if ValueAll(c.value, good) then Ok((c, rest)) else Err
  {
    var bytes := WriteValue(codec, write, c).value;
    assert Encode(c.id) + bytes + rest == Encode(c.id) + (bytes + rest);
    assert codec.kinds(c.id) != Unknown;
    ReadNatWritten(c.id, bytes + rest);
    if c.value.Nested? {
      ReadNestedWritten(write, read, dom, good, codec.kinds(c.id).shape, c.value.slots, rest);
    }
  }

  ghost predicate DistinctIds(added: seq<Component>) {
    forall i, j :: 0 <= i < j < |added| ==> added[i].id != added[j].id
  }

  /** A patch is a map: it has one entry for each id. */
  ghost predicate IsMap(p: Patch) {
    && DistinctIds(p.added)
    && (forall i, j :: 0 <= i < j < |p.removed| ==> p.removed[i] != p.removed[j])
    && (forall i, j :: 0 <= i < |p.added| && 0 <= j < |p.removed| ==> p.added[i].id != p.removed[j])
  }

  lemma {:induction false} ReadAddedWritten(codec: Codec, write: Writer, read: Reader, dom: Template -> bool,
                                            good: Template -> bool, added: seq<Component>, rest: seq<byte>)
    requires Lawful(codec) && Inverse(write, read, dom, good) && WriteAdded(codec, write, added).Ok?
    requires DistinctIds(added) && AddedAll(added, dom)
    ensures ReadAdded(Components(codec, read), WriteAdded(codec, write, added).value + rest, |added|)
         == if AddedAll(added, good) then Ok((Patch(added, []), rest)) else Err
    decreases |added|
  {
    if added == [] {
      assert [] + rest == rest;
    } else {
      var n := |added| - 1;
      var init, last := added[..n], added[n];
      assert added == init + [last];
      AddedAllSnoc(init, last, dom);
      AddedAllSnoc(init, last, good);
      var a, b := WriteAdded(codec, write, init).value, Encode(last.id) + WriteValue(codec, write, last).value;
      assert a + b + rest == a + (b + rest);
      ReadAddedWritten(codec, write, read, dom, good, init, b + rest);
      ReadComponentWritten(codec, write, read, dom, good, last, rest);
      assert Find(init, last.id) == |init|;
    }
  }

  lemma {:induction false} ReadRemovedWritten(codec: Codec, start: Patch, removed: seq<nat>, rest: seq<byte>)
    requires Lawful(codec) && WriteRemoved(codec, removed).Ok?
    requires start.removed == [] && IsMap(start.(removed := removed))
    ensures ReadRemoved(codec, start, WriteRemoved(codec, removed).value + rest, |removed|)
         == Ok((start.(removed := removed), rest))
    decreases |removed|
  {
    if removed == [] {
      assert [] + rest == rest;
    } else {
      var n := |removed| - 1;
      var init, last := removed[..n], removed[n];
      var a := WriteRemoved(codec, init).value;
      assert a + Encode(last) + rest == a + (Encode(last) + rest);
      assert codec.kinds(last) != Unknown;
      RemovedAppends(start.added, removed);
      ReadRemovedWritten(codec, start, init, Encode(last) + rest);
      ReadNatWritten(last, rest);
    }
  }

  lemma RemovedAppends(added: seq<Component>, removed: seq<nat>)
    requires removed != [] && IsMap(Patch(added, removed))
    ensures var init, last := removed[..|removed| - 1], removed[|removed| - 1];
            IsMap(Patch(added, init)) && InsertRemoved(Patch(added, init), last) == Patch(added, removed)
  {
    var init, last := removed[..|removed| - 1], removed[|removed| - 1];
    assert Find(added, last) == |added|;
    assert removed == init + [last];
  }

  lemma ReadPatchWritten(codec: Codec, write: Writer, read: Reader, dom: Template -> bool, good: Template -> bool,
                         p: Patch, rest: seq<byte>)
    requires Lawful(codec) && Inverse(write, read, dom, good) && WritePatch(codec, write, p).Ok?
    requires IsMap(p) && AddedAll(p.added, dom)
    ensures ReadPatch(codec, read, WritePatch(codec, write, p).value + rest)
         == if AddedAll(p.added, good) then Ok((p, rest)) else Err
  {
    var m, n := Encode(|p.added|), Encode(|p.removed|);
    var a, b := WriteAdded(codec, write, p.added).value, WriteRemoved(codec, p.removed).value;
    assert m + n + (a + b) + rest == m + (n + (a + (b + rest)));
    ReadCounts(codec, read, |p.added|, |p.removed|, a + (b + rest));
    ReadAddedWritten(codec, write, read, dom, good, p.added, b + rest);
    if AddedAll(p.added, good) {
      ReadRemovedWritten(codec, Patch(p.added, []), p.removed, rest);
    }
  }

  /** After the two counts come the entries. */
  lemma {:induction false} ReadCounts(codec: Codec, read: Reader, added: nat, removed: nat, data: seq<byte>)
    requires added < I32_LIMIT && removed < I32_LIMIT
    ensures ReadPatch(codec, read, Encode(added) + (Encode(removed) + data))
         == match ReadAdded(Components(codec, read), data, added)
            case Err => Err
            case Ok((p, tail)) => ReadRemoved(codec, p, tail, removed)
  {
    ReadNatWritten(added, Encode(removed) + data);
    ReadNatWritten(removed, data);
  }

  /** The template names a registered item other than air and its count is not zero. */
  predicate Sound(codec: Codec, t: Template) {
    t.item < codec.items && NonEmpty(codec, t.item, t.count)
  }

  ghost predicate AllMaps(t: Template) {
    Everywhere(t, (c: Template) => IsMap(c.patch))
  }

  ghost predicate AllSound(codec: Codec, t: Template) {
    Everywhere(t, (c: Template) => Sound(codec, c))
  }

  /** Reading, with any number of levels left, what was written with any number of levels left:
      the very same template and the data after it, exactly when the tree is not deeper than the
      reader allows and every template in it is sound; otherwise an error. */
  lemma {:induction false} ReadWritten(codec: Codec, budget: nat, left: nat, t: Template, rest: seq<byte>)
    requires Lawful(codec) && AllMaps(t) && WriteTemplate(codec, budget, t).Ok?
    ensures ReadTemplate(codec, left, WriteTemplate(codec, budget, t).value + rest)
         == if Height(t) <= left && AllSound(codec, t) then Ok((t, rest)) else Err
    decreases budget, 1
  {
    if left > 0 {
      var dom, good := (c: Template) => AllMaps(c), Acceptable(codec, left - 1);
      InverseBelow(codec, budget, left);
      EverywhereBelow(t, (c: Template) => IsMap(c.patch));
      ReadNode(codec, budget, left, t, rest, dom, good);
      GoodBelow(codec, left, t);
    }
  }

  /** The trees a reader with so many levels left should accept. */
  ghost function Acceptable(codec: Codec, left: nat): Template -> bool {
    (c: Template) => Height(c) <= left && AllSound(codec, c)
  }

  lemma {:induction false} InverseBelow(codec: Codec, budget: nat, left: nat)
    requires Lawful(codec) && budget > 0 && left > 0
    ensures Inverse(Below(codec, budget), BelowReader(codec, left), (c: Template) => AllMaps(c),
                    Acceptable(codec, left - 1))
    decreases budget, 0
  {
    var write, read, good := Below(codec, budget), BelowReader(codec, left), Acceptable(codec, left - 1);
    forall c: Template, after: seq<byte> | AllMaps(c) && write(c).Ok?
      ensures read(write(c).value + after) == if good(c) then Ok((c, after)) else Err
    {
      InverseAt(codec, budget, left, c, after);
    }
  }

  lemma {:induction false} InverseAt(codec: Codec, budget: nat, left: nat, c: Template, after: seq<byte>)
    requires Lawful(codec) && budget > 0 && left > 0 && AllMaps(c) && Below(codec, budget)(c).Ok?
    ensures BelowReader(codec, left)(Below(codec, budget)(c).value + after)
         == if Acceptable(codec, left - 1)(c) then Ok((c, after)) else Err
    decreases budget - 1, 2
  {
    ReadWritten(codec, budget - 1, left - 1, c, after);
  }

  /** What a tree asks of the levels below its root. */
  lemma {:induction false} GoodBelow(codec: Codec, left: nat, t: Template)
    requires left > 0
    ensures Height(t) <= left && AllSound(codec, t)
       <==> Sound(codec, t) && AddedAll(t.patch.added, Acceptable(codec, left - 1))
  {
    HeightBelow(t, left - 1);
    EverywhereBelow(t, (c: Template) => Sound(codec, c));
    AddedAllAnd(t.patch.added, Acceptable(codec, left - 1), (c: Template) => Height(c) <= left - 1,
                (c: Template) => Everywhere(c, (d: Template) => Sound(codec, d)));
  }

  lemma {:induction false} ReadNode(codec: Codec, budget: nat, left: nat, t: Template, rest: seq<byte>,
                                    dom: Template -> bool, good: Template -> bool)
    requires Lawful(codec) && left > 0 && WriteTemplate(codec, budget, t).Ok?
    requires Inverse(Below(codec, budget), BelowReader(codec, left), dom, good)
    requires IsMap(t.patch) && AddedAll(t.patch.added, dom)
    ensures ReadTemplate(codec, left, WriteTemplate(codec, budget, t).value + rest)
         == if Sound(codec, t) && AddedAll(t.patch.added, good) then Ok((t, rest)) else Err
  {
    var item, count := Encode(t.item), Encode(ToU32(t.count));
    var patch := WritePatch(codec, Below(codec, budget), t.patch).value;
    assert item + count + patch + rest == item + (count + (patch + rest));
    ReadNatWritten(t.item, count + (patch + rest));
    ReadVarWritten(t.count, patch + rest);
    ReadPatchWritten(codec, Below(codec, budget), BelowReader(codec, left), dom, good, t.patch, rest);
  }

  // ---------------------------------------------------------------- the layout

  /** A slot as it is written. */
  ghost function SlotBytes(write: Writer, flagged: bool, slot: Option<Template>): seq<byte>
    requires slot.Some? ==> write(slot.value).Ok?
  {
    match slot
    case None => [0]
    case Some(t) => if flagged then [1] + write(t).value else write(t).value
  }

  ghost predicate SlotsWritten(write: Writer, slots: seq<Option<Template>>) {
    forall i :: 0 <= i < |slots| && slots[i].Some? ==> write(slots[i].value).Ok?
  }

  ghost function SlotBlocks(write: Writer, flagged: bool, slots: seq<Option<Template>>): seq<seq<byte>>
    requires SlotsWritten(write, slots)
  {
    seq(|slots|, i requires 0 <= i < |slots| => SlotBytes(write, flagged, slots[i]))
  }

  lemma {:induction false} SlotsLayout(write: Writer, flagged: bool, slots: seq<Option<Template>>)
    requires WriteSlots(write, flagged, slots).Ok?
    ensures SlotsWritten(write, slots)
    ensures WriteSlots(write, flagged, slots).value == Flatten(SlotBlocks(write, flagged, slots))
    decreases |slots|
  {
    if slots != [] {
      var n := |slots| - 1;
      SlotsLayout(write, flagged, slots[..n]);
      assert forall i :: 0 <= i < n ==> slots[..n][i] == slots[i];
      FlattenSnoc(SlotBlocks(write, flagged, slots[..n]), SlotBytes(write, flagged, slots[n]));
      assert SlotBlocks(write, flagged, slots)
          == SlotBlocks(write, flagged, slots[..n]) + [SlotBytes(write, flagged, slots[n])];
    }
  }

  /** A value as it is written: by the codec of its component, or as a list of slots after their
      number. */
  ghost predicate ValueBytes(codec: Codec, write: Writer, c: Component, bytes: seq<byte>) {
    match (codec.kinds(c.id), c.value)
    case (SimpleKind, Simple(plain)) => codec.write(c.id, plain) == Ok(bytes)
    case (NestedKind(shape), Nested(slots)) =>
      && SlotsWritten(write, slots)
      && bytes == (if shape.counted then Encode(|slots|) else []) + Flatten(SlotBlocks(write, shape.flagged, slots))
    case _ => false
  }

  lemma ValueLayout(codec: Codec, write: Writer, c: Component)
    requires WriteValue(codec, write, c).Ok?
    ensures ValueBytes(codec, write, c, WriteValue(codec, write, c).value)
  {
    if c.value.Nested? {
      SlotsLayout(write, codec.kinds(c.id).shape.flagged, c.value.slots);
    }
  }

  /** The blocks are the components as they are written: the id, then the value. */
  ghost predicate AddedBlocks(codec: Codec, write: Writer, added: seq<Component>, blocks: seq<seq<byte>>) {
    && |blocks| == |added|
    && forall i :: 0 <= i < |added| ==> ComponentBlock(codec, write, added[i], blocks[i])
  }

  ghost predicate ComponentBlock(codec: Codec, write: Writer, c: Component, block: seq<byte>) {
    var id := Encode(c.id);
    id <= block && ValueBytes(codec, write, c, block[|id|..])
  }

  lemma {:induction false} AddedLayout(codec: Codec, write: Writer, added: seq<Component>)
    returns (blocks: seq<seq<byte>>)
    requires WriteAdded(codec, write, added).Ok?
    ensures AddedBlocks(codec, write, added, blocks) && WriteAdded(codec, write, added).value == Flatten(blocks)
    decreases |added|
  {
    if added == [] {
      blocks := [];
    } else {
      var n := |added| - 1;
      var last := added[n];
      var before := AddedLayout(codec, write, added[..n]);
      var block := Encode(last.id) + WriteValue(codec, write, last).value;
      ComponentLayout(codec, write, last);
      FlattenSnoc(before, block);
      blocks := before + [block];
      AddedBlocksSnoc(codec, write, added, before, block);
    }
  }

  lemma ComponentLayout(codec: Codec, write: Writer, c: Component)
    requires WriteValue(codec, write, c).Ok?
    ensures ComponentBlock(codec, write, c, Encode(c.id) + WriteValue(codec, write, c).value)
  {
    var id, value := Encode(c.id), WriteValue(codec, write, c).value;
    ValueLayout(codec, write, c);
    assert (id + value)[|id|..] == value;
  }

  lemma AddedBlocksSnoc(codec: Codec, write: Writer, added: seq<Component>, before: seq<seq<byte>>, block: seq<byte>)
    requires added != [] && AddedBlocks(codec, write, added[..|added| - 1], before)
    requires ComponentBlock(codec, write, added[|added| - 1], block)
    ensures AddedBlocks(codec, write, added, before + [block])
  {
    var n, blocks := |added| - 1, before + [block];
    forall i | 0 <= i < |added|
      ensures ComponentBlock(codec, write, added[i], blocks[i])
    {
      if i < n {
        assert ComponentBlock(codec, write, added[..n][i], before[i]);
      }
    }
  }

  lemma {:induction false} RemovedLayout(codec: Codec, removed: seq<nat>)
    requires WriteRemoved(codec, removed).Ok?
    ensures WriteRemoved(codec, removed).value
         == Flatten(seq(|removed|, i requires 0 <= i < |removed| => Encode(removed[i])))
    decreases |removed|
  {
    if removed != [] {
      var n := |removed| - 1;
      RemovedLayout(codec, removed[..n]);
      var blocks := seq(n, i requires 0 <= i < n => Encode(removed[..n][i]));
      FlattenSnoc(blocks, Encode(removed[n]));
      assert seq(|removed|, i requires 0 <= i < |removed| => Encode(removed[i])) == blocks + [Encode(removed[n])];
    }
  }

  /** A template as it is written: item, count, how many components are added and removed, the added
      ones with their values, and the ids of the removed ones. */
  lemma TemplateLayout(codec: Codec, left: nat, t: Template) returns (added: seq<seq<byte>>)
    requires WriteTemplate(codec, left, t).Ok?
    ensures left > 0 && AddedBlocks(codec, Below(codec, left), t.patch.added, added)
    ensures var removed := t.patch.removed;
            WriteTemplate(codec, left, t).value
            == Encode(t.item) + Encode(ToU32(t.count))
               + (Encode(|t.patch.added|) + Encode(|removed|)
                  + (Flatten(added) + Flatten(seq(|removed|, i requires 0 <= i < |removed| => Encode(removed[i])))))
  {
    added := AddedLayout(codec, Below(codec, left), t.patch.added);
    RemovedLayout(codec, t.patch.removed);
  }

  /** A flagged slot is empty after a zero, and filled after any other flag; a missing flag is an
      error, and slots without flags are always filled. */
  lemma SlotFlags(read: Reader, flag: byte, data: seq<byte>)
    ensures ReadSlot(read, true, []).Err?
    ensures ReadSlot(read, true, [0] + data) == Ok((None, data))
    ensures flag != 0 ==> ReadSlot(read, true, [flag] + data) == ReadSlot(read, false, data)
    ensures ReadSlot(read, false, data).Ok? <==> read(data).Ok?
    ensures read(data).Ok? ==> ReadSlot(read, false, data) == Ok((Some(read(data).value.0), read(data).value.1))
  {
    assert ([0] + data)[1..] == data && ([flag] + data)[1..] == data;
  }

  // ---------------------------------------------------------------- repeated entries

  /** Among entries for one id the last one counts: an added component replaces what was there, a
      removal takes its place, and every other entry stays. */
  lemma LastEntryCounts(p: Patch, c: Component, id: nat)
    requires IsMap(p)
    ensures forall d :: d in InsertAdded(p, c).added <==> d == c || (d in p.added && d.id != c.id)
    ensures InsertAdded(p, c).removed == p.removed
    ensures forall d :: d in InsertRemoved(p, id).added <==> d in p.added && d.id != id
    ensures forall r :: r in InsertRemoved(p, id).removed <==> r == id || r in p.removed
  {
    AddedCounts(p, c);
    RemovedCounts(p, id);
  }

  lemma AddedCounts(p: Patch, c: Component)
    requires DistinctIds(p.added)
    ensures forall d :: d in InsertAdded(p, c).added <==> d == c || (d in p.added && d.id != c.id)
  {
    var i, q := Find(p.added, c.id), InsertAdded(p, c).added;
    forall d: Component
      ensures d in q <==> d == c || (d in p.added && d.id != c.id)
    {
      if d in p.added && d.id != c.id {
        var j :| 0 <= j < |p.added| && p.added[j] == d;
        assert q[j] == d;
      }
      assert q[i] == c;
    }
  }

  lemma RemovedCounts(p: Patch, id: nat)
    requires DistinctIds(p.added)
    ensures forall d :: d in InsertRemoved(p, id).added <==> d in p.added && d.id != id
    ensures forall r :: r in InsertRemoved(p, id).removed <==> r == id || r in p.removed
  {
    var i, q := Find(p.added, id), InsertRemoved(p, id).added;
    forall d: Component
      ensures d in q <==> d in p.added && d.id != id
    {
      if d in p.added && d.id != id {
        var j :| 0 <= j < |p.added| && p.added[j] == d;
        assert i < |p.added| && j > i ==> q[j - 1] == d;
        assert j < i ==> q[j] == d;
      }
    }
  }
}
