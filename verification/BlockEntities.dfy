/** The registry of block entity types and the bitmap that answers, by block id, whether some
    registered type accepts a block. */
module BlockEntities {
  import opened Wrappers

  /** Blocks are compared by address. */
  type Block = nat

  datatype BlockEntityType = BlockEntityType(key: string, validBlocks: seq<Block>) {
    predicate IsValid(block: Block) {
      block in validBlocks
    }
  }

  /** The ids blocks were given when they were registered; a block without one is not registered. */
  type Ids = map<Block, nat>

  ghost predicate Distinct(ids: Ids) {
    forall a, b :: a in ids && b in ids && ids[a] == ids[b] ==> a == b
  }

  // ---------------------------------------------------------------- the bitmap

  predicate IsMarked(marks: seq<bool>, id: nat) {
    id < |marks| && marks[id]
  }

  function Falses(n: nat): seq<bool> {
    seq(n, i => false)
  }

  /** Grows the bitmap as far as needed and sets one bit. */
  function Mark(marks: seq<bool>, id: nat): (r: seq<bool>)
    ensures forall other: nat :: IsMarked(r, other) <==> other == id || IsMarked(marks, other)
  {
    var grown := if |marks| <= id then marks + Falses(id + 1 - |marks|) else marks;
    grown[id := true]
  }

  predicate AllIn(blocks: seq<Block>, ids: Ids) {
    forall block :: block in blocks ==> block in ids
  }

  function MarkAll(ids: Ids, marks: seq<bool>, blocks: seq<Block>): seq<bool>
    requires AllIn(blocks, ids)
    decreases |blocks|
  {
    if blocks == [] then marks
    else
      var n := |blocks| - 1;
      assert blocks[n] in blocks;
      Mark(MarkAll(ids, marks, blocks[..n]), ids[blocks[n]])
  }

  /** Some block of the list has the id. */
  ghost predicate Carries(ids: Ids, blocks: seq<Block>, id: nat) {
    exists i :: 0 <= i < |blocks| && blocks[i] in ids && ids[blocks[i]] == id
  }

  lemma {:induction false} MarkAllMarks(ids: Ids, marks: seq<bool>, blocks: seq<Block>, id: nat)
    requires AllIn(blocks, ids)
    ensures IsMarked(MarkAll(ids, marks, blocks), id) <==> IsMarked(marks, id) || Carries(ids, blocks, id)
    decreases |blocks|
  {
    if blocks != [] {
      var n := |blocks| - 1;
      MarkAllMarks(ids, marks, blocks[..n], id);
      assert blocks[n] in blocks;
      assert Carries(ids, blocks, id) <==> Carries(ids, blocks[..n], id) || ids[blocks[n]] == id by {
        if Carries(ids, blocks, id) {
          var i :| 0 <= i < |blocks| && blocks[i] in ids && ids[blocks[i]] == id;
          assert i < n ==> blocks[..n][i] == blocks[i];
        }
        if Carries(ids, blocks[..n], id) {
          var i :| 0 <= i < n && blocks[..n][i] in ids && ids[blocks[..n][i]] == id;
          assert blocks[i] == blocks[..n][i];
        }
      }
    }
  }

  // ---------------------------------------------------------------- scan and bitmap

  /** What a scan over the registered types finds. */
  ghost predicate Scan(types: seq<BlockEntityType>, block: Block) {
    exists i :: 0 <= i < |types| && types[i].IsValid(block)
  }

  /** What `has_block_entity` reads. */
  predicate Has(ids: Ids, marks: seq<bool>, block: Block) {
    block in ids && IsMarked(marks, ids[block])
  }

  /** The bitmap and the scan agree on every block there is, registered or not. */
  ghost predicate Agree(ids: Ids, types: seq<BlockEntityType>, marks: seq<bool>) {
    forall block: Block :: Has(ids, marks, block) <==> Scan(types, block)
  }

  ghost predicate MarksKnown(ids: Ids, marks: seq<bool>) {
    forall id: nat :: IsMarked(marks, id) ==> exists block :: block in ids && ids[block] == id
  }

  lemma ScanSnoc(types: seq<BlockEntityType>, t: BlockEntityType, block: Block)
    ensures Scan(types + [t], block) <==> Scan(types, block) || t.IsValid(block)
  {
    var longer := types + [t];
    if Scan(types, block) {
      var i :| 0 <= i < |types| && types[i].IsValid(block);
      assert longer[i].IsValid(block);
    }
    if t.IsValid(block) {
      assert longer[|types|].IsValid(block);
    }
  }

  lemma {:induction false} RegisterAgrees(ids: Ids, types: seq<BlockEntityType>, marks: seq<bool>, t: BlockEntityType)
    requires Distinct(ids) && Agree(ids, types, marks) && AllIn(t.validBlocks, ids)
    ensures Agree(ids, types + [t], MarkAll(ids, marks, t.validBlocks))
  {
    forall block: Block
      ensures Has(ids, MarkAll(ids, marks, t.validBlocks), block) <==> Scan(types + [t], block)
    {
      ScanSnoc(types, t, block);
      assert Has(ids, marks, block) <==> Scan(types, block);
      if block in ids {
        MarkAllMarks(ids, marks, t.validBlocks, ids[block]);
        CarriesIffListed(ids, t.validBlocks, block);
      }
    }
  }

  /** This is where ids must be distinct. */
  lemma CarriesIffListed(ids: Ids, blocks: seq<Block>, block: Block)
    requires Distinct(ids) && AllIn(blocks, ids) && block in ids
    ensures Carries(ids, blocks, ids[block]) <==> block in blocks
  {
    if block in blocks {
      var i :| 0 <= i < |blocks| && blocks[i] == block;
      assert ids[blocks[i]] == ids[block];
    }
  }

  lemma {:induction false} RegisterKnown(ids: Ids, marks: seq<bool>, blocks: seq<Block>)
    requires MarksKnown(ids, marks) && AllIn(blocks, ids)
    ensures MarksKnown(ids, MarkAll(ids, marks, blocks))
  {
    forall id: nat | IsMarked(MarkAll(ids, marks, blocks), id)
      ensures exists block :: block in ids && ids[block] == id
    {
      MarkAllMarks(ids, marks, blocks, id);
    }
  }

  /** Giving a new block a fresh id marks nothing: the block stays unknown to bitmap and scan. */
  lemma NumberAgrees(ids: Ids, types: seq<BlockEntityType>, marks: seq<bool>, block: Block, id: nat)
    requires Agree(ids, types, marks) && MarksKnown(ids, marks)
    requires block !in ids && forall other :: other in ids ==> ids[other] != id
    ensures Agree(ids[block := id], types, marks)
  {
    assert !IsMarked(marks, id);
    forall other: Block
      ensures Has(ids[block := id], marks, other) <==> Scan(types, other)
    {
      assert Has(ids, marks, other) <==> Scan(types, other);
    }
  }

  // ---------------------------------------------------------------- the registry

  class BlockEntityTypeRegistry {
    var types: seq<BlockEntityType>
    var byKey: map<string, nat>
    var marks: seq<bool>
    var allowsRegistering: bool

    constructor ()
      ensures types == [] && byKey == map[] && marks == [] && allowsRegistering
    {
      types, byKey, marks, allowsRegistering := [], map[], [], true;
    }

    /** The id of the new type, or nothing where the source panics: on a frozen registry and on
        a block that has no id yet. */
    method Register(ids: Ids, t: BlockEntityType) returns (id: Option<nat>)
      modifies this
      ensures id.Some? <==> old(allowsRegistering) && AllIn(t.validBlocks, ids)
      ensures id.Some? ==> id.value == old(|types|) && types == old(types) + [t]
      ensures id.Some? ==> byKey == old(byKey)[t.key := id.value] && allowsRegistering
      ensures id.Some? ==> marks == MarkAll(ids, old(marks), t.validBlocks)
    {
      if !allowsRegistering {
        return None;
      }
      id := Some(|types|);
      types := types + [t];
      byKey := byKey[t.key := id.value];
      var blocks := t.validBlocks;
      for i := 0 to |blocks|
        invariant AllIn(blocks[..i], ids)
        invariant marks == MarkAll(ids, old(marks), blocks[..i])
        invariant types == old(types) + [t] && byKey == old(byKey)[t.key := id.value]
        invariant allowsRegistering
      {
        if blocks[i] !in ids {
          return None;
        }
        var blockId := ids[blocks[i]];
        assert blocks[..i + 1][..i] == blocks[..i];
        if |marks| <= blockId {
          marks := marks + Falses(blockId + 1 - |marks|);
        }
        marks := marks[blockId := true];
      }
      assert blocks[..|blocks|] == blocks;
    }

    method HasBlockEntity(ids: Ids, block: Block) returns (has: bool)
      ensures has == Has(ids, marks, block)
    {
      if block !in ids {
        return false;
      }
      var id := ids[block];
      has := if id < |marks| then marks[id] else false;
    }
  }

  // ---------------------------------------------------------------- whole runs

  datatype Step = Number(block: Block, id: nat) | Register(t: BlockEntityType)

  datatype State = State(ids: Ids, types: seq<BlockEntityType>, marks: seq<bool>)

  /** A step that panics, or that would give an id twice, ends the run. */
  predicate Possible(s: State, step: Step) {
    match step
    case Number(block, id) => block !in s.ids && forall other :: other in s.ids ==> s.ids[other] != id
    case Register(t) => AllIn(t.validBlocks, s.ids)
  }

  function Next(s: State, step: Step): State
    requires Possible(s, step)
  {
    match step
    case Number(block, id) => s.(ids := s.ids[block := id])
    case Register(t) => s.(types := s.types + [t], marks := MarkAll(s.ids, s.marks, t.validBlocks))
  }

  /** The state after the steps, or nothing when one of them was not possible. */
  function Run(steps: seq<Step>): Option<State> {
    if steps == [] then Some(State(map[], [], []))
    else
      match Run(steps[..|steps| - 1])
      case None => None
      case Some(s) =>
        var last := steps[|steps| - 1];
        if Possible(s, last) then Some(Next(s, last)) else None
  }

  ghost predicate Valid(s: State) {
    Distinct(s.ids) && MarksKnown(s.ids, s.marks) && Agree(s.ids, s.types, s.marks)
  }

  lemma StepValid(s: State, step: Step)
    requires Valid(s) && Possible(s, step)
    ensures Valid(Next(s, step))
  {
    match step
    case Number(block, id) =>
      NumberAgrees(s.ids, s.types, s.marks, block, id);
      NumberKnown(s.ids, s.marks, block, id);
    case Register(t) =>
      RegisterAgrees(s.ids, s.types, s.marks, t);
      RegisterKnown(s.ids, s.marks, t.validBlocks);
  }

  lemma NumberKnown(ids: Ids, marks: seq<bool>, block: Block, id: nat)
    requires MarksKnown(ids, marks) && block !in ids
    ensures MarksKnown(ids[block := id], marks)
  {
    var longer := ids[block := id];
    forall marked: nat | IsMarked(marks, marked)
      ensures exists other :: other in longer && longer[other] == marked
    {
      var other :| other in ids && ids[other] == marked;
      assert longer[other] == marked;
    }
  }

  /** After every run that mixes block and type registrations, the bitmap answers as a scan
      over all registered types would, for every block. */
  lemma {:induction false} BitmapIsScan(steps: seq<Step>)
    requires Run(steps).Some?
    ensures Valid(Run(steps).value)
    decreases |steps|
  {
    if steps != [] {
      var n := |steps| - 1;
      BitmapIsScan(steps[..n]);
      StepValid(Run(steps[..n]).value, steps[n]);
    }
  }

  lemma {:induction false} TypesAreRegistered(steps: seq<Step>, block: Block)
    requires Run(steps).Some?
    ensures Scan(Run(steps).value.types, block) <==>
              exists i :: 0 <= i < |steps| && steps[i].Register? && block in steps[i].t.validBlocks
    decreases |steps|
  {
    if steps != [] {
      var n := |steps| - 1;
      var init := steps[..n];
      TypesAreRegistered(init, block);
      if steps[n].Register? {
        ScanSnoc(Run(init).value.types, steps[n].t, block);
      }
      if exists i :: 0 <= i < |init| && init[i].Register? && block in init[i].t.validBlocks {
        var i :| 0 <= i < |init| && init[i].Register? && block in init[i].t.validBlocks;
        assert steps[i].Register? && block in steps[i].t.validBlocks;
      }
      if exists i :: 0 <= i < |steps| && steps[i].Register? && block in steps[i].t.validBlocks {
        var i :| 0 <= i < |steps| && steps[i].Register? && block in steps[i].t.validBlocks;
        assert i < n ==> init[i].Register? && block in init[i].t.validBlocks;
      }
    }
  }

  /** So a block has a block entity exactly when some registration of the run listed it. */
  lemma {:induction false} HasIffRegistered(steps: seq<Step>, block: Block)
    requires Run(steps).Some?
    ensures Has(Run(steps).value.ids, Run(steps).value.marks, block) <==>
              exists i :: 0 <= i < |steps| && steps[i].Register? && block in steps[i].t.validBlocks
  {
    BitmapIsScan(steps);
    TypesAreRegistered(steps, block);
  }

  /** A run goes on as long as blocks get new ids and types list numbered blocks. */
  lemma {:induction false} RunGoesOn(steps: seq<Step>, step: Step)
    requires Run(steps).Some?
    ensures var ids := Run(steps).value.ids;
            Run(steps + [step]).Some? <==>
              match step
              case Number(block, id) => block !in ids.Keys && id !in ids.Values
              case Register(t) => forall i :: 0 <= i < |t.validBlocks| ==> t.validBlocks[i] in ids.Keys
    ensures step.Number? && Run(steps + [step]).Some? ==>
              Run(steps + [step]).value.ids == Run(steps).value.ids[step.block := step.id]
  {
    assert (steps + [step])[..|steps|] == steps;
  }
}
