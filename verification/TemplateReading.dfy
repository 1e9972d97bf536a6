/** What reading a template can yield, whatever bytes arrive. */
module TemplateReading {
  import opened Fallible
  import opened Bytes
  import opened VarInt
  import opened ItemTemplate

  // ---------------------------------------------------------------- what is promised

  /** The codec of the component produced the value. */
  ghost predicate Produced(codec: Codec, id: nat, plain: Plain) {
    exists data :: codec.read(id, data).Ok? && codec.read(id, data).value.0 == plain
  }

  /** The component has the layout of its kind. */
  ghost predicate ComponentFormed(codec: Codec, c: Component) {
    match (codec.kinds(c.id), c.value)
    case (SimpleKind, Simple(plain)) => Produced(codec, c.id, plain)
    case (NestedKind(shape), Nested(slots)) => Shaped(shape, slots)
    case _ => false
  }

  ghost predicate AllKnown(codec: Codec, removed: seq<nat>) {
    forall i :: 0 <= i < |removed| ==> !codec.kinds(removed[i]).Unknown?
  }

  /** The sizes fit a VarInt, the entries are known, and every id has at most one entry. */
  ghost predicate PatchFormed(codec: Codec, p: Patch) {
    && IsMap(p)
    && |p.added| < I32_LIMIT && |p.removed| < I32_LIMIT
    && (forall i :: 0 <= i < |p.added| ==> ComponentFormed(codec, p.added[i]))
    && AllKnown(codec, p.removed)
  }

  ghost predicate Formed(codec: Codec, t: Template) {
    t.item < I32_LIMIT && Sound(codec, t) && PatchFormed(codec, t.patch)
  }

  ghost function FormedNode(codec: Codec): Template -> bool {
    (t: Template) => Formed(codec, t)
  }

  /** A tree of formed templates, at most so many levels high. */
  ghost function FormedTree(codec: Codec, left: nat): Template -> bool {
    (t: Template) => Height(t) <= left && Everywhere(t, FormedNode(codec))
  }

  /** Whatever the reader yields is good. */
  ghost predicate Yields(read: Reader, good: Template -> bool) {
    forall data :: read(data).Ok? ==> good(read(data).value.0)
  }

  // ---------------------------------------------------------------- components

  lemma {:induction false} SlotsRead(read: Reader, good: Template -> bool, flagged: bool, data: seq<byte>, count: nat)
    requires Yields(read, good) && ReadSlots(read, flagged, data, count).Ok?
    ensures var slots := ReadSlots(read, flagged, data, count).value.0;
            && |slots| == count && SlotsAll(slots, good)
            && (!flagged ==> forall i :: 0 <= i < |slots| ==> slots[i].Some?)
    decreases count
  {
    if count > 0 {
      SlotsRead(read, good, flagged, data, count - 1);
      var (before, rest) := ReadSlots(read, flagged, data, count - 1).value;
      SlotsAllSnoc(before, ReadSlot(read, flagged, rest).value.0, good);
    }
  }

  lemma NestedRead(read: Reader, good: Template -> bool, shape: Shape, data: seq<byte>)
    requires Yields(read, good) && ReadNested(read, shape, data).Ok?
    ensures var slots := ReadNested(read, shape, data).value.0;
            Shaped(shape, slots) && SlotsAll(slots, good)
  {
    var (count, rest) := ReadCount(shape, data).value;
    SlotsRead(read, good, shape.flagged, rest, count);
  }

  /** Well laid out, with good templates inside. */
  ghost function GoodComponent(codec: Codec, good: Template -> bool): Component -> bool {
    (c: Component) => ComponentFormed(codec, c) && ValueAll(c.value, good)
  }

  lemma ComponentRead(codec: Codec, read: Reader, good: Template -> bool, data: seq<byte>)
    requires Yields(read, good) && ReadComponent(codec, read, data).Ok?
    ensures GoodComponent(codec, good)(ReadComponent(codec, read, data).value.0)
  {
    var (id, afterId) := ReadNat(data).value;
    if codec.kinds(id).NestedKind? {
      NestedRead(read, good, codec.kinds(id).shape, afterId);
    }
  }

  // ---------------------------------------------------------------- patches

  ghost predicate AllGood(added: seq<Component>, ok: Component -> bool) {
    forall i :: 0 <= i < |added| ==> ok(added[i])
  }

  lemma InsertAddedGood(p: Patch, c: Component, ok: Component -> bool)
    requires DistinctIds(p.added) && AllGood(p.added, ok) && ok(c)
    ensures var q := InsertAdded(p, c);
            && DistinctIds(q.added) && AllGood(q.added, ok)
            && q.removed == p.removed && |q.added| <= |p.added| + 1
  {
  }

  lemma {:induction false} AddedRead(one: ComponentReader, ok: Component -> bool, data: seq<byte>, count: nat)
    requires forall d :: one(d).Ok? ==> ok(one(d).value.0)
    requires ReadAdded(one, data, count).Ok?
    ensures var p := ReadAdded(one, data, count).value.0;
            p.removed == [] && |p.added| <= count && DistinctIds(p.added) && AllGood(p.added, ok)
    decreases count
  {
    if count > 0 {
      AddedRead(one, ok, data, count - 1);
      var (before, rest) := ReadAdded(one, data, count - 1).value;
      InsertAddedGood(before, one(rest).value.0, ok);
    }
  }

  /** A removal takes the place of the entry it removes. */
  lemma InsertRemovedGood(p: Patch, id: nat, ok: Component -> bool)
    requires IsMap(p) && AllGood(p.added, ok)
    ensures var q := InsertRemoved(p, id);
            && IsMap(q) && AllGood(q.added, ok)
            && |q.added| <= |p.added| && |q.removed| <= |p.removed| + 1
            && forall i :: 0 <= i < |q.removed| ==> q.removed[i] == id || q.removed[i] in p.removed
  {
    var i := Find(p.added, id);
    if i < |p.added| {
      forall j | 0 <= j < |p.removed|
        ensures p.removed[j] != id
      {
        assert p.added[i].id != p.removed[j];
      }
    }
  }

  lemma {:induction false} RemovedRead(codec: Codec, start: Patch, ok: Component -> bool, data: seq<byte>, count: nat)
    requires IsMap(start) && start.removed == [] && AllGood(start.added, ok)
    requires ReadRemoved(codec, start, data, count).Ok?
    ensures var p := ReadRemoved(codec, start, data, count).value.0;
            && IsMap(p) && AllGood(p.added, ok) && AllKnown(codec, p.removed)
            && |p.added| <= |start.added| && |p.removed| <= count
    decreases count
  {
    if count > 0 {
      RemovedRead(codec, start, ok, data, count - 1);
      var (before, rest) := ReadRemoved(codec, start, data, count - 1).value;
      InsertRemovedGood(before, ReadNat(rest).value.0, ok);
    }
  }

  lemma PatchRead(codec: Codec, read: Reader, good: Template -> bool, data: seq<byte>)
    requires Yields(read, good) && ReadPatch(codec, read, data).Ok?
    ensures var p := ReadPatch(codec, read, data).value.0;
            PatchFormed(codec, p) && AddedAll(p.added, good)
  {
    var ok, one := GoodComponent(codec, good), Components(codec, read);
    forall d | one(d).Ok?
      ensures ok(one(d).value.0)
    {
      ComponentRead(codec, read, good, d);
    }
    var (added, rest) := ReadNat(data).value;
    var (removed, after) := ReadNat(rest).value;
    AddedRead(one, ok, after, added);
    var (p, tail) := ReadAdded(one, after, added).value;
    RemovedRead(codec, p, ok, tail, removed);
  }

  // ---------------------------------------------------------------- trees

  /** What a formed tree asks of the levels below its root. */
  lemma FormedBelow(codec: Codec, left: nat, t: Template)
    requires left > 0
    ensures FormedTree(codec, left)(t) <==> Formed(codec, t) && AddedAll(t.patch.added, FormedTree(codec, left - 1))
  {
    var node := FormedNode(codec);
    HeightBelow(t, left - 1);
    EverywhereBelow(t, node);
    AddedAllAnd(t.patch.added, FormedTree(codec, left - 1), (c: Template) => Height(c) <= left - 1,
                (c: Template) => Everywhere(c, node));
  }

  /** Whatever bytes arrive: a template that is read is no higher than the levels left, and at every
      depth it names a registered item other than air, has a nonzero count and a patch that is a map
      of known components, each laid out as its kind demands. */
  lemma {:induction false} ReadIsFormed(codec: Codec, left: nat, data: seq<byte>)
    requires ReadTemplate(codec, left, data).Ok?
    ensures var t := ReadTemplate(codec, left, data).value.0;
            Height(t) <= left && Everywhere(t, FormedNode(codec))
    decreases left
  {
    var read, good := BelowReader(codec, left), FormedTree(codec, left - 1);
    forall d | read(d).Ok?
      ensures good(read(d).value.0)
    {
      ReadIsFormed(codec, left - 1, d);
    }
    NodeRead(codec, left, good, data);
    FormedBelow(codec, left, ReadTemplate(codec, left, data).value.0);
  }

  lemma {:induction false} NodeRead(codec: Codec, left: nat, good: Template -> bool, data: seq<byte>)
    requires left > 0 && Yields(BelowReader(codec, left), good) && ReadTemplate(codec, left, data).Ok?
    ensures var t := ReadTemplate(codec, left, data).value.0;
            Formed(codec, t) && AddedAll(t.patch.added, good)
  {
    var (item, afterItem) := ReadNat(data).value;
    var (count, afterCount) := ReadVar(afterItem).value;
    PatchRead(codec, BelowReader(codec, left), good, afterCount);
  }

  /** A template without components is accepted exactly when its item is registered and not air, its
      count is not zero, and a level is left. */
  lemma {:induction false} FlatTemplate(codec: Codec, left: nat, item: nat, count: i32, rest: seq<byte>)
    requires item < I32_LIMIT
    ensures ReadTemplate(codec, left, Encode(item) + (Encode(ToU32(count)) + ([0, 0] + rest)))
         == if left > 0 && item < codec.items && item != codec.air && count != 0
            then Ok((Template(item, count, Patch([], [])), rest)) else Err
  {
    var patch := [0, 0] + rest;
    ReadNatWritten(item, Encode(ToU32(count)) + patch);
    ReadVarWritten(count, patch);
    if left > 0 {
      EmptyPatch(codec, BelowReader(codec, left), rest);
    }
  }

  lemma EmptyPatch(codec: Codec, read: Reader, rest: seq<byte>)
    ensures ReadPatch(codec, read, [0, 0] + rest) == Ok((Patch([], []), rest))
  {
    assert Encode(0) == [0] && [0, 0] + rest == [0] + ([0] + rest);
    ReadNatWritten(0, [0] + rest);
    ReadNatWritten(0, rest);
  }

  /** At every depth. */
  lemma {:induction false} ReadIsSound(codec: Codec, left: nat, data: seq<byte>)
    requires ReadTemplate(codec, left, data).Ok?
    ensures Everywhere(ReadTemplate(codec, left, data).value.0,
                       (t: Template) => t.item < codec.items && t.item != codec.air && t.count != 0)
  {
    ReadIsFormed(codec, left, data);
    EverywhereImplies(ReadTemplate(codec, left, data).value.0, FormedNode(codec),
                      (t: Template) => t.item < codec.items && t.item != codec.air && t.count != 0);
  }

  // ---------------------------------------------------------------- writing it again

  lemma {:induction false} EverywhereImplies(t: Template, p: Template -> bool, q: Template -> bool)
    requires Everywhere(t, p) && forall c :: p(c) ==> q(c)
    ensures Everywhere(t, q)
    decreases t
  {
    forall i | 0 <= i < |t.patch.added|
      ensures EverywhereIn(t.patch.added[i].value, q)
    {
      EverywhereInImplies(t.patch.added[i].value, p, q);
    }
  }

  lemma {:induction false} EverywhereInImplies(value: Value, p: Template -> bool, q: Template -> bool)
    requires EverywhereIn(value, p) && forall c :: p(c) ==> q(c)
    ensures EverywhereIn(value, q)
    decreases value
  {
    if value.Nested? {
      forall i | 0 <= i < |value.slots| && value.slots[i].Some?
        ensures Everywhere(value.slots[i].value, q)
      {
        EverywhereImplies(value.slots[i].value, p, q);
      }
    }
  }

  /** The codecs of the other components can write what they read. */
  ghost predicate Rewrites(codec: Codec) {
    forall id: nat, plain: Plain :: Produced(codec, id, plain) ==> codec.write(id, plain).Ok?
  }

  /** Then so can this one: what was read from any bytes can be written, and reading that yields the
      same template again and leaves the data after it. */
  lemma {:induction false} ReadWriteRead(codec: Codec, left: nat, data: seq<byte>, rest: seq<byte>)
    requires Lawful(codec) && Rewrites(codec) && ReadTemplate(codec, left, data).Ok?
    ensures var t := ReadTemplate(codec, left, data).value.0;
            && WriteTemplate(codec, left, t).Ok?
            && ReadTemplate(codec, left, WriteTemplate(codec, left, t).value + rest) == Ok((t, rest))
  {
    var t := ReadTemplate(codec, left, data).value.0;
    ReadIsFormed(codec, left, data);
    EverywhereImplies(t, FormedNode(codec), (c: Template) => Encodable(codec, c));
    EverywhereImplies(t, FormedNode(codec), (c: Template) => IsMap(c.patch));
    EverywhereImplies(t, FormedNode(codec), (c: Template) => Sound(codec, c));
    WriteTemplateIff(codec, left, t);
    ReadWritten(codec, left, left, t, rest);
  }
}
