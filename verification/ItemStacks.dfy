/** Item stacks hold an item, a count and a patch over the item's prototype components. The
    patch is kept in a canonical form, so that equal patches and equal components coincide. */
module ItemStacks {
  import opened Wrappers

  type Item = string
  type Key = string

  datatype Entry<V> = Set(value: V) | Removed

  type Components<V> = map<Key, V>
  type Patch<V> = map<Key, Entry<V>>

  /** The item registry: which items exist and the prototype components of each. */
  datatype Registry<V> = Registry(items: set<Item>, prototypes: Item -> Components<V>)

  const AIR: Item := "minecraft:air"

  const I32_MAX := 0x7fff_ffff

  /** Counts are 32-bit. */
  type Count = n: int | -0x8000_0000 <= n <= I32_MAX

  /** The count congruent to a number modulo 2^32: arithmetic where overflow is not checked. */
  function Wrap32(n: int): Count {
    (n + 0x8000_0000) % 0x1_0000_0000 - 0x8000_0000
  }

  // ---------------------------------------------------------------- patches over a prototype

  function Lookup<V>(m: Components<V>, key: Key): Option<V> {
    if key in m then Some(m[key]) else None
  }

  /** The component a patched prototype shows under a key. */
  function Effective<V>(prototype: Components<V>, patch: Patch<V>, key: Key): Option<V> {
    if key !in patch then Lookup(prototype, key)
    else
      match patch[key]
      case Set(value) => Some(value)
      case Removed => None
  }

  /** The entry changes what the prototype shows. */
  predicate Matters<V(==)>(prototype: Components<V>, key: Key, entry: Entry<V>) {
    match entry
    case Set(value) => Lookup(prototype, key) != Some(value)
    case Removed => key in prototype
  }

  /** `sanitize_against`. */
  function Sanitize<V(==)>(prototype: Components<V>, patch: Patch<V>): Patch<V> {
    map key | key in patch && Matters(prototype, key, patch[key]) :: patch[key]
  }

  predicate Sanitized<V(==)>(prototype: Components<V>, patch: Patch<V>) {
    forall key :: key in patch ==> Matters(prototype, key, patch[key])
  }

  ghost predicate SameComponents<V>(p: Components<V>, a: Patch<V>, q: Components<V>, b: Patch<V>) {
    forall key: Key :: Effective(p, a, key) == Effective(q, b, key)
  }

  /** Sanitizing yields a sanitized patch that shows the same components. */
  lemma SanitizeKeepsComponents<V>(prototype: Components<V>, patch: Patch<V>)
    ensures Sanitized(prototype, Sanitize(prototype, patch))
    ensures SameComponents(prototype, Sanitize(prototype, patch), prototype, patch)
  {
    forall key: Key
      ensures Effective(prototype, Sanitize(prototype, patch), key) == Effective(prototype, patch, key)
    {
      if key in patch && !Matters(prototype, key, patch[key]) {
        assert key !in Sanitize(prototype, patch);
      }
    }
  }

  /** A sanitized patch is determined by the components it shows. */
  lemma PatchIsCanonical<V>(prototype: Components<V>, a: Patch<V>, b: Patch<V>)
    requires Sanitized(prototype, a) && Sanitized(prototype, b)
    ensures SameComponents(prototype, a, prototype, b) <==> a == b
  {
    if SameComponents(prototype, a, prototype, b) {
      forall key: Key
        ensures key in a <==> key in b
        ensures key in a && key in b ==> a[key] == b[key]
      {
        SameEntry(prototype, a, b, key);
      }
    }
  }

  lemma SameEntry<V>(prototype: Components<V>, a: Patch<V>, b: Patch<V>, key: Key)
    requires Sanitized(prototype, a) && Sanitized(prototype, b)
    requires SameComponents(prototype, a, prototype, b)
    ensures key in a <==> key in b
    ensures key in a && key in b ==> a[key] == b[key]
  {
    assert Effective(prototype, a, key) == Effective(prototype, b, key);
    assert key in a ==> Matters(prototype, key, a[key]);
    assert key in b ==> Matters(prototype, key, b[key]);
  }

  // ---------------------------------------------------------------- edits on values

  datatype Stack<V> = Stack(item: Item, count: Count, patch: Patch<V>) {
    predicate IsEmpty() {
      item == AIR || count <= 0
    }

    /** The item callers see. */
    function ShownItem(): Item {
      if IsEmpty() then AIR else item
    }

    /** The component callers see; an empty stack has none. */
    function Shown(registry: Registry<V>, key: Key): Option<V> {
      if IsEmpty() then None else Effective(registry.prototypes(item), patch, key)
    }
  }

  /** A stack without items, or of air, is empty: it looks like air and shows no component. Any other
      shows its own item, with what its patch sets, without what its patch removes, and otherwise
      with what its prototype has. */
  lemma StackShows<V>(registry: Registry<V>, s: Stack<V>, key: Key)
    ensures s.IsEmpty() <==> s.count < 1 || s.item == "minecraft:air"
    ensures s.count < 1 || s.item == "minecraft:air" ==>
              s.ShownItem() == "minecraft:air" && s.Shown(registry, key) == None
    ensures s.count >= 1 && s.item != "minecraft:air" ==>
              var prototype := registry.prototypes(s.item);
              && s.ShownItem() == s.item
              && (key in s.patch && s.patch[key].Set? ==> s.Shown(registry, key) == Some(s.patch[key].value))
              && (key in s.patch && s.patch[key].Removed? ==> s.Shown(registry, key) == None)
              && (key !in s.patch && key in prototype ==> s.Shown(registry, key) == Some(prototype[key]))
              && (key !in s.patch && key !in prototype ==> s.Shown(registry, key) == None)
  {
  }

  /** Which entries sanitizing keeps: a value that differs from the prototype's, and the removal of a
      key that the prototype has. */
  lemma SanitizeKeeps<V>(prototype: Components<V>, patch: Patch<V>, key: Key)
    ensures key in Sanitize(prototype, patch) <==>
              key in patch && if key in prototype then patch[key] != Set(prototype[key]) else patch[key].Set?
    ensures key in Sanitize(prototype, patch) ==> Sanitize(prototype, patch)[key] == patch[key]
  {
  }

  lemma Wrap32IsCongruent(n: int)
    ensures (Wrap32(n) - n) % 0x1_0000_0000 == 0
  {
  }

  datatype Edit<V> =
    | SetComponent(key: Key, value: V)
    | RemoveComponent(key: Key)
    | ClearComponent(key: Key)
    | SetItem(item: Item)
    | SetCount(count: Count)

  function Apply<V(==)>(registry: Registry<V>, s: Stack<V>, edit: Edit<V>): Stack<V> {
    var prototype := registry.prototypes(s.item);
    match edit
    case SetComponent(key, value) =>
      if Lookup(prototype, key) == Some(value) then s.(patch := s.patch - {key})
      else s.(patch := s.patch[key := Set(value)])
    case RemoveComponent(key) =>
      if key in prototype then s.(patch := s.patch[key := Removed]) else s.(patch := s.patch - {key})
    case ClearComponent(key) => s.(patch := s.patch - {key})
    case SetItem(item) =>
      if item in registry.items
      then s.(item := item, patch := Sanitize(registry.prototypes(item), s.patch))
      else s
    case SetCount(count) => s.(count := count)
  }

  function ApplyAll<V(==)>(registry: Registry<V>, s: Stack<V>, edits: seq<Edit<V>>): Stack<V>
    decreases |edits|
  {
    if edits == [] then s
    else Apply(registry, ApplyAll(registry, s, edits[..|edits| - 1]), edits[|edits| - 1])
  }

  ghost predicate Valid<V>(registry: Registry<V>, s: Stack<V>) {
    Sanitized(registry.prototypes(s.item), s.patch)
  }

  /** Sanitizing a valid stack again changes nothing. */
  lemma SanitizeIsIdempotent<V>(prototype: Components<V>, patch: Patch<V>)
    ensures Sanitized(prototype, patch) <==> Sanitize(prototype, patch) == patch
  {
    if Sanitize(prototype, patch) == patch {
      forall key | key in patch
        ensures Matters(prototype, key, patch[key])
      {
        assert key in Sanitize(prototype, patch);
      }
    }
  }

  lemma ApplyValid<V>(registry: Registry<V>, s: Stack<V>, edit: Edit<V>)
    requires Valid(registry, s)
    ensures Valid(registry, Apply(registry, s, edit))
  {
    if edit.SetItem? && edit.item in registry.items {
      SanitizeKeepsComponents(registry.prototypes(edit.item), s.patch);
    }
  }

  /** Every history of edits and item changes keeps the patch sanitized. */
  lemma {:induction false} EditsStayValid<V>(registry: Registry<V>, s: Stack<V>, edits: seq<Edit<V>>)
    requires Valid(registry, s)
    ensures Valid(registry, ApplyAll(registry, s, edits))
    decreases |edits|
  {
    if edits != [] {
      var n := |edits| - 1;
      EditsStayValid(registry, s, edits[..n]);
      ApplyValid(registry, ApplyAll(registry, s, edits[..n]), edits[n]);
    }
  }

  /** Edits take effect one after another. */
  lemma {:induction false} EditsInOrder<V>(registry: Registry<V>, s: Stack<V>, one: seq<Edit<V>>, two: seq<Edit<V>>)
    ensures ApplyAll(registry, s, one + two) == ApplyAll(registry, ApplyAll(registry, s, one), two)
    ensures |one| == 1 ==> ApplyAll(registry, s, one) == Apply(registry, s, one[0])
    decreases |two|
  {
    if two == [] {
      assert one + two == one;
    } else {
      var n := |two| - 1;
      assert (one + two)[..|one| + n] == one + two[..n];
      EditsInOrder(registry, s, one, two[..n]);
    }
    if |one| == 1 {
      assert one[..0] == [];
    }
  }

  /** The component a stack would show were it not empty. */
  function Held<V>(registry: Registry<V>, s: Stack<V>, key: Key): Option<V> {
    Effective(registry.prototypes(s.item), s.patch, key)
  }

  /** What each edit means for the components: exactly the edited key changes, to exactly the
      given value; changing the item puts the old patch over the new prototype. */
  lemma EditMeaning<V>(registry: Registry<V>, s: Stack<V>, edit: Edit<V>, key: Key)
    ensures var held := Held(registry, Apply(registry, s, edit), key);
            match edit
            case SetComponent(k, value) => held == if key == k then Some(value) else Held(registry, s, key)
            case RemoveComponent(k) => held == if key == k then None else Held(registry, s, key)
            case ClearComponent(k) =>
              held == if key == k then Lookup(registry.prototypes(s.item), key) else Held(registry, s, key)
            case SetItem(item) =>
              held == Effective(registry.prototypes(if item in registry.items then item else s.item), s.patch, key)
            case SetCount(_) => held == Held(registry, s, key)
  {
    if edit.SetItem? && edit.item in registry.items {
      SanitizeKeepsComponents(registry.prototypes(edit.item), s.patch);
      assert Effective(registry.prototypes(edit.item), Sanitize(registry.prototypes(edit.item), s.patch), key)
          == Effective(registry.prototypes(edit.item), s.patch, key);
    }
  }

  /** The item changes only to a registered one, and only when asked to; likewise the count. */
  lemma EditKeepsTheRest<V>(registry: Registry<V>, s: Stack<V>, edit: Edit<V>)
    ensures var t := Apply(registry, s, edit);
            && t.count == (if edit.SetCount? then edit.count else s.count)
            && t.item == (if edit.SetItem? && edit.item in registry.items then edit.item else s.item)
            && (edit.SetItem? && edit.item !in registry.items ==> t == s)
  {
  }

  // ---------------------------------------------------------------- comparing stacks

  ghost predicate SameShown<V>(registry: Registry<V>, a: Stack<V>, b: Stack<V>) {
    forall key: Key :: a.Shown(registry, key) == b.Shown(registry, key)
  }

  /** `is_same_item_same_components` on values. */
  ghost predicate SameItemSameComponents<V>(registry: Registry<V>, a: Stack<V>, b: Stack<V>) {
    && a.ShownItem() == b.ShownItem()
    && ((a.IsEmpty() && b.IsEmpty()) || SameShown(registry, a, b))
  }

  /** Valid stacks are the same exactly when both are empty, or neither is and they agree on
      item and patch. */
  lemma SameIffSamePatch<V>(registry: Registry<V>, a: Stack<V>, b: Stack<V>)
    requires Valid(registry, a) && Valid(registry, b)
    ensures SameItemSameComponents(registry, a, b)
       <==> (a.IsEmpty() && b.IsEmpty()) || (!a.IsEmpty() && !b.IsEmpty() && a.item == b.item && a.patch == b.patch)
  {
    if !a.IsEmpty() && !b.IsEmpty() && a.item == b.item {
      var prototype := registry.prototypes(a.item);
      PatchIsCanonical(prototype, a.patch, b.patch);
      assert SameShown(registry, a, b) <==> SameComponents(prototype, a.patch, prototype, b.patch) by {
        ShownIsEffective(registry, a, b);
      }
    }
  }

  lemma ShownIsEffective<V>(registry: Registry<V>, a: Stack<V>, b: Stack<V>)
    requires !a.IsEmpty() && !b.IsEmpty()
    ensures SameShown(registry, a, b)
       <==> SameComponents(registry.prototypes(a.item), a.patch, registry.prototypes(b.item), b.patch)
  {
    if SameShown(registry, a, b) {
      forall key: Key
        ensures Effective(registry.prototypes(a.item), a.patch, key)
             == Effective(registry.prototypes(b.item), b.patch, key)
      {
        assert a.Shown(registry, key) == b.Shown(registry, key);
      }
    }
  }

  /** Two histories that start at the same stack end in the same stack exactly when they end in
      the same item and count and show the same components. */
  lemma {:induction false} HistoryDoesNotShow<V>(registry: Registry<V>, s: Stack<V>, one: seq<Edit<V>>,
                                                 two: seq<Edit<V>>)
    requires Valid(registry, s)
    ensures var a, b := ApplyAll(registry, s, one), ApplyAll(registry, s, two);
            a == b <==> a.item == b.item && a.count == b.count
                        && forall key: Key :: Held(registry, a, key) == Held(registry, b, key)
  {
    EditsStayValid(registry, s, one);
    EditsStayValid(registry, s, two);
    var a, b := ApplyAll(registry, s, one), ApplyAll(registry, s, two);
    if a.item == b.item && forall key: Key :: Held(registry, a, key) == Held(registry, b, key) {
      var prototype := registry.prototypes(a.item);
      forall key: Key
        ensures Effective(prototype, a.patch, key) == Effective(prototype, b.patch, key)
      {
        assert Held(registry, a, key) == Held(registry, b, key);
      }
      PatchIsCanonical(prototype, a.patch, b.patch);
    }
  }

  // ---------------------------------------------------------------- the stack itself

  predicate IsRemoved<V>(patch: Patch<V>, key: Key) {
    key in patch && patch[key].Removed?
  }

  /** The set holds every key under which the patched prototype shows something. */
  ghost predicate Covers<V>(keys: set<Key>, prototype: Components<V>, patch: Patch<V>) {
    forall key: Key :: Effective(prototype, patch, key).Some? ==> key in keys
  }

  /** Adds the prototype keys that are not removed. */
  method CollectPrototype<V>(prototype: Components<V>, patch: Patch<V>, keys: set<Key>) returns (all: set<Key>)
    ensures keys <= all
    ensures forall key :: key in prototype && !IsRemoved(patch, key) ==> key in all
  {
    all := keys;
    var left := prototype.Keys;
    while left != {}
      invariant left <= prototype.Keys && keys <= all
      invariant forall key :: key in prototype && key !in left && !IsRemoved(patch, key) ==> key in all
      decreases |left|
    {
      var key :| key in left;
      left := left - {key};
      if !IsRemoved(patch, key) {
        all := all + {key};
      }
    }
  }

  /** Adds the keys the patch sets. */
  method CollectPatch<V>(patch: Patch<V>, keys: set<Key>) returns (all: set<Key>)
    ensures keys <= all
    ensures forall key :: key in patch && patch[key].Set? ==> key in all
  {
    all := keys;
    var left := patch.Keys;
    while left != {}
      invariant left <= patch.Keys && keys <= all
      invariant forall key :: key in patch && key !in left && patch[key].Set? ==> key in all
      decreases |left|
    {
      var key :| key in left;
      left := left - {key};
      if patch[key].Set? {
        all := all + {key};
      }
    }
  }

  class ItemStack<V(==)> {
    const registry: Registry<V>
    var item: Item
    var count: Count
    var patch: Patch<V>

    function State(): Stack<V>
      reads this
    {
      Stack(item, count, patch)
    }

    /** The invariant of a stack that is only changed through its methods. */
    ghost predicate IsSane()
      reads this
    {
      Valid(registry, State())
    }

    /** `with_count_and_patch`. */
    constructor (registry: Registry<V>, item: Item, count: Count, patch: Patch<V>)
      ensures this.registry == registry && this.item == item && this.count == count
      ensures IsSane() && SameComponents(registry.prototypes(item), this.patch, registry.prototypes(item), patch)
    {
      this.registry, this.item, this.count := registry, item, count;
      this.patch := Sanitize(registry.prototypes(item), patch);
      SanitizeKeepsComponents(registry.prototypes(item), patch);
    }

    method SetValue(key: Key, value: V)
      requires IsSane()
      modifies this
      ensures IsSane() && State() == Apply(registry, old(State()), SetComponent(key, value))
    {
      ApplyValid(registry, State(), SetComponent(key, value));
      var isDefault := Lookup(registry.prototypes(item), key) == Some(value);
      if isDefault {
        patch := patch - {key};
      } else {
        patch := patch[key := Set(value)];
      }
    }

    method Remove(key: Key)
      requires IsSane()
      modifies this
      ensures IsSane() && State() == Apply(registry, old(State()), RemoveComponent(key))
    {
      ApplyValid(registry, State(), RemoveComponent(key));
      if key in registry.prototypes(item) {
        patch := patch[key := Removed];
      } else {
        patch := patch - {key};
      }
    }

    method Clear(key: Key)
      requires IsSane()
      modifies this
      ensures IsSane() && State() == Apply(registry, old(State()), ClearComponent(key))
    {
      patch := patch - {key};
    }

    method ChangeItem(newItem: Item)
      requires IsSane()
      modifies this
      ensures IsSane() && State() == Apply(registry, old(State()), SetItem(newItem))
    {
      ApplyValid(registry, State(), SetItem(newItem));
      if newItem in registry.items {
        item := newItem;
        patch := Sanitize(registry.prototypes(newItem), patch);
      }
    }

    /** Splitting neither makes nor loses items, exactly as long as what stays behind fits a count.
        It always does unless a negative amount is asked for. */
    method Split(amount: Count) returns (result: ItemStack<V>)
      requires IsSane()
      modifies this
      ensures IsSane() && fresh(result) && result.registry == registry && result.IsSane()
      ensures result.count == if amount < old(count) then amount else old(count)
      ensures count == Wrap32(old(count) - result.count)
      ensures result.count + count == old(count) <==> old(count) - result.count <= 0x7fff_ffff
      ensures amount >= 0 ==> result.count + count == old(count)
      ensures State().(count := 0) == result.State().(count := 0) == old(State()).(count := 0)
    {
      var take := if amount < count then amount else count;
      SanitizeIsIdempotent(registry.prototypes(item), patch);
      result := new ItemStack(registry, item, take, patch);
      PatchIsCanonical(registry.prototypes(item), result.patch, patch);
      count := Wrap32(count - take);
    }

    /** `get_effective_value_raw`. */
    function GetEffectiveValueRaw(key: Key): (value: Option<V>)
      reads this
      ensures value == State().Shown(registry, key)
    {
      if item == AIR || count <= 0 then None
      else if key !in patch then Lookup(registry.prototypes(item), key)
      else
        match patch[key]
        case Set(value) => Some(value)
        case Removed => None
    }

    /** The keys of both sides, collected, decide whether all components agree. */
    method ComponentsEqual(other: ItemStack<V>) returns (equal: bool)
      requires registry == other.registry
      ensures equal <==> SameShown(registry, State(), other.State())
    {
      var keys := CollectPrototype(registry.prototypes(item), patch, {});
      keys := CollectPatch(patch, keys);
      keys := CollectPrototype(registry.prototypes(other.item), other.patch, keys);
      keys := CollectPatch(other.patch, keys);
      assert Covers(keys, registry.prototypes(item), patch);
      assert Covers(keys, registry.prototypes(other.item), other.patch);
      equal := AgreeOn(other, keys);
    }

    method AgreeOn(other: ItemStack<V>, keys: set<Key>) returns (equal: bool)
      requires registry == other.registry
      requires Covers(keys, registry.prototypes(item), patch)
      requires Covers(keys, registry.prototypes(other.item), other.patch)
      ensures equal <==> SameShown(registry, State(), other.State())
    {
      var left := keys;
      while left != {}
        invariant left <= keys
        invariant forall key :: key in keys && key !in left
                    ==> State().Shown(registry, key) == other.State().Shown(registry, key)
        decreases |left|
      {
        var key :| key in left;
        left := left - {key};
        if GetEffectiveValueRaw(key) != other.GetEffectiveValueRaw(key) {
          return false;
        }
      }
      return true;
    }

    static method IsSameItemSameComponents(a: ItemStack<V>, b: ItemStack<V>) returns (same: bool)
      requires a.registry == b.registry
      ensures same <==> SameItemSameComponents(a.registry, a.State(), b.State())
    {
      if a.State().ShownItem() != b.State().ShownItem() {
        return false;
      }
      if a.State().IsEmpty() && b.State().IsEmpty() {
        return true;
      }
      same := a.ComponentsEqual(b);
    }
  }
}
