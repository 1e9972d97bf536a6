/** Profile properties: a multimap from names to sequences of properties, kept as a list that
    is grouped by the first occurrence of each name. A string is its UTF-8 bytes. */
module ProfileProperties {
  import opened Wrappers
  import opened Fallible
  import opened Bytes

  type Text = seq<byte>

  datatype Property = Property(name: Text, value: Text, signature: Option<Text>)

  const MAX_PROPERTIES := 16

  // ---------------------------------------------------------------- multimaps

  /** The properties with a name, in order: what the multimap maps the name to. */
  function Of(name: Text, ps: seq<Property>): seq<Property> {
    if ps == [] then []
    else (if ps[0].name == name then [ps[0]] else []) + Of(name, ps[1..])
  }

  function Without(name: Text, ps: seq<Property>): seq<Property> {
    if ps == [] then []
    else (if ps[0].name == name then [] else [ps[0]]) + Without(name, ps[1..])
  }

  ghost predicate SameMultimap(a: seq<Property>, b: seq<Property>) {
    forall name :: Of(name, a) == Of(name, b)
  }

  /** The groups in order of their first property, each in its own order. */
  function Grouped(ps: seq<Property>): seq<Property>
    decreases |ps|
  {
    if ps == [] then []
    else
      WithoutShorter(ps[0].name, ps);
      Of(ps[0].name, ps) + Grouped(Without(ps[0].name, ps))
  }

  lemma {:induction false} OfAppend(name: Text, a: seq<Property>, b: seq<Property>)
    ensures Of(name, a + b) == Of(name, a) + Of(name, b)
  {
    if a == [] {
      assert a + b == b;
    } else {
      var head := if a[0].name == name then [a[0]] else [];
      assert (a + b)[1..] == a[1..] + b;
      OfAppend(name, a[1..], b);
      assert head + (Of(name, a[1..]) + Of(name, b)) == head + Of(name, a[1..]) + Of(name, b);
    }
  }

  lemma {:induction false} WithoutAppend(name: Text, a: seq<Property>, b: seq<Property>)
    ensures Without(name, a + b) == Without(name, a) + Without(name, b)
  {
    if a == [] {
      assert a + b == b;
    } else {
      var head := if a[0].name == name then [] else [a[0]];
      assert (a + b)[1..] == a[1..] + b;
      WithoutAppend(name, a[1..], b);
      assert head + (Without(name, a[1..]) + Without(name, b)) == head + Without(name, a[1..]) + Without(name, b);
    }
  }

  lemma {:induction false} SizesAdd(name: Text, ps: seq<Property>)
    ensures |Of(name, ps)| + |Without(name, ps)| == |ps|
  {
    if ps != [] {
      SizesAdd(name, ps[1..]);
    }
  }

  lemma {:induction false} WithoutShorter(name: Text, ps: seq<Property>)
    requires ps != [] && ps[0].name == name
    ensures |Without(name, ps)| < |ps|
  {
    SizesAdd(name, ps);
  }

  lemma {:induction false} OfNames(name: Text, ps: seq<Property>)
    ensures forall p :: p in Of(name, ps) ==> p.name == name && p in ps
    ensures forall p :: p in ps && p.name == name ==> p in Of(name, ps)
  {
    if ps != [] {
      OfNames(name, ps[1..]);
      assert ps == [ps[0]] + ps[1..];
    }
  }

  lemma {:induction false} WithoutNames(name: Text, ps: seq<Property>)
    ensures forall p :: p in Without(name, ps) <==> p in ps && p.name != name
  {
    if ps != [] {
      WithoutNames(name, ps[1..]);
      assert ps == [ps[0]] + ps[1..];
    }
  }

  lemma {:induction false} OfWithout(name: Text, gone: Text, ps: seq<Property>)
    ensures Of(name, Without(gone, ps)) == if name == gone then [] else Of(name, ps)
  {
    if ps != [] {
      OfWithout(name, gone, ps[1..]);
      OfAppend(name, if ps[0].name == gone then [] else [ps[0]], Without(gone, ps[1..]));
    }
  }

  lemma {:induction false} OfOf(name: Text, kept: Text, ps: seq<Property>)
    ensures Of(name, Of(kept, ps)) == if name == kept then Of(name, ps) else []
  {
    if ps != [] {
      OfOf(name, kept, ps[1..]);
      OfAppend(name, if ps[0].name == kept then [ps[0]] else [], Of(kept, ps[1..]));
    }
  }

  // ---------------------------------------------------------------- grouping

  function LastIndex(ps: seq<Property>, name: Text): (i: int)
    ensures -1 <= i < |ps|
  {
    if ps == [] then -1
    else if ps[|ps| - 1].name == name then |ps| - 1
    else LastIndex(ps[..|ps| - 1], name)
  }

  /** Puts a property after the last one of the same name, or at the end. */
  function Insert(ps: seq<Property>, p: Property): seq<Property> {
    var at := LastIndex(ps, p.name);
    if at < 0 then ps + [p] else ps[..at + 1] + [p] + ps[at + 1..]
  }

  lemma {:induction false} LastIndexMeaning(ps: seq<Property>, name: Text)
    ensures var i := LastIndex(ps, name);
            && (i >= 0 ==> ps[i].name == name)
            && forall k :: i < k < |ps| ==> ps[k].name != name
  {
    if ps != [] && ps[|ps| - 1].name != name {
      LastIndexMeaning(ps[..|ps| - 1], name);
    }
  }

  lemma {:induction false} LastIndexUnique(ps: seq<Property>, name: Text, i: int)
    requires -1 <= i < |ps| && (i >= 0 ==> ps[i].name == name)
    requires forall k :: i < k < |ps| ==> ps[k].name != name
    ensures LastIndex(ps, name) == i
  {
    LastIndexMeaning(ps, name);
  }

  lemma {:induction false} LastIndexAfter(a: seq<Property>, b: seq<Property>, name: Text)
    requires forall q :: q in a ==> q.name != name
    ensures var i := LastIndex(b, name); LastIndex(a + b, name) == if i < 0 then -1 else |a| + i
  {
    LastIndexMeaning(b, name);
    var i := LastIndex(b, name);
    assert forall k :: 0 <= k < |a| ==> a[k] in a && (a + b)[k] == a[k];
    LastIndexUnique(a + b, name, if i < 0 then -1 else |a| + i);
  }

  /** Inserting skips a front part that lacks the name. */
  lemma InsertAfter(a: seq<Property>, b: seq<Property>, p: Property)
    requires forall q :: q in a ==> q.name != p.name
    ensures Insert(a + b, p) == a + Insert(b, p)
  {
    LastIndexAfter(a, b, p.name);
    var i := LastIndex(b, p.name);
    if i < 0 {
      assert a + b + [p] == a + (b + [p]);
    } else {
      var at := |a| + i;
      assert (a + b)[..at + 1] == a + b[..i + 1];
      assert (a + b)[at + 1..] == b[i + 1..];
      assert a + b[..i + 1] + [p] + b[i + 1..] == a + (b[..i + 1] + [p] + b[i + 1..]);
    }
  }

  /** Inserting extends the group that ends where the name occurs last. */
  lemma InsertInside(a: seq<Property>, b: seq<Property>, p: Property)
    requires a != [] && a[|a| - 1].name == p.name
    requires forall q :: q in b ==> q.name != p.name
    ensures Insert(a + b, p) == a + [p] + b
  {
    assert forall k :: |a| <= k < |a + b| ==> (a + b)[k] == b[k - |a|] && b[k - |a|] in b;
    LastIndexUnique(a + b, p.name, |a| - 1);
    assert (a + b)[..|a|] == a && (a + b)[|a|..] == b;
  }

  lemma {:induction false} GroupedNames(ps: seq<Property>)
    ensures forall p :: p in Grouped(ps) <==> p in ps
    decreases |ps|
  {
    if ps != [] {
      var name := ps[0].name;
      WithoutShorter(name, ps);
      GroupedNames(Without(name, ps));
      OfNames(name, ps);
      WithoutNames(name, ps);
    }
  }

  lemma {:induction false} GroupedSnocOther(ps: seq<Property>, p: Property)
    requires ps != [] && p.name != ps[0].name
    requires var rest := Without(ps[0].name, ps);
             Grouped(rest + [p]) == Insert(Grouped(rest), p)
    ensures Grouped(ps + [p]) == Insert(Grouped(ps), p)
  {
    var name := ps[0].name;
    var rest := Without(name, ps);
    calc {
      Grouped(ps + [p]);
    ==
      { GroupedStep(ps + [p]); }
      Of(name, ps + [p]) + Grouped(Without(name, ps + [p]));
    ==
      { SnocOther(name, ps, p); }
      Of(name, ps) + Grouped(rest + [p]);
    ==
      Of(name, ps) + Insert(Grouped(rest), p);
    ==
      { OfNames(name, ps); InsertAfter(Of(name, ps), Grouped(rest), p); }
      Insert(Of(name, ps) + Grouped(rest), p);
    ==
      { GroupedStep(ps); }
      Insert(Grouped(ps), p);
    }
  }

  lemma {:induction false} SnocOther(name: Text, ps: seq<Property>, p: Property)
    requires p.name != name
    ensures Of(name, ps + [p]) == Of(name, ps)
    ensures Without(name, ps + [p]) == Without(name, ps) + [p]
  {
    OfAppend(name, ps, [p]);
    WithoutAppend(name, ps, [p]);
    assert Of(name, [p]) == [] && Without(name, [p]) == [p];
  }

  lemma {:induction false} GroupedStep(ps: seq<Property>)
    requires ps != []
    ensures Grouped(ps) == Of(ps[0].name, ps) + Grouped(Without(ps[0].name, ps))
  {
  }

  /** One more property at the end of the input is one insertion into the grouped list. */
  lemma {:induction false} GroupedSnoc(ps: seq<Property>, p: Property)
    ensures Grouped(ps + [p]) == Insert(Grouped(ps), p)
    decreases |ps|
  {
    if ps == [] {
      assert ps + [p] == [p];
      assert Without(p.name, [p]) == [];
      assert Of(p.name, [p]) == [p];
    } else if p.name == ps[0].name {
      GroupedSnocSame(ps, p);
    } else {
      WithoutShorter(ps[0].name, ps);
      GroupedSnoc(Without(ps[0].name, ps), p);
      GroupedSnocOther(ps, p);
    }
  }

  lemma {:induction false} GroupedSnocSame(ps: seq<Property>, p: Property)
    requires ps != [] && p.name == ps[0].name
    ensures Grouped(ps + [p]) == Insert(Grouped(ps), p)
  {
    var name := ps[0].name;
    var group := Of(name, ps);
    var rest := Grouped(Without(name, ps));
    OfAppend(name, ps, [p]);
    WithoutAppend(name, ps, [p]);
    assert Of(name, [p]) == [p] && Without(name, [p]) == [];
    assert Grouped(ps + [p]) == group + [p] + rest by {
      assert (ps + [p])[0] == ps[0];
      assert Without(name, ps + [p]) == Without(name, ps);
    }
    OfNames(name, ps);
    WithoutNames(name, ps);
    GroupedNames(Without(name, ps));
    assert group[|group| - 1] in group;
    InsertInside(group, rest, p);
  }

  type Inserter = (seq<Property>, Property) -> seq<Property>

  /** The first `n` properties, inserted one by one. */
  function Inserted(insert: Inserter, ps: seq<Property>, n: nat): seq<Property>
    requires n <= |ps|
  {
    if n == 0 then [] else insert(Inserted(insert, ps, n - 1), ps[n - 1])
  }

  function Inserting(): Inserter {
    (ps: seq<Property>, p: Property) => Insert(ps, p)
  }

  /** A way of grouping that handles one more property by inserting it. */
  ghost predicate GroupsBy(group: seq<Property> -> seq<Property>, insert: Inserter) {
    group([]) == [] && forall ps: seq<Property>, p: Property :: group(ps + [p]) == insert(group(ps), p)
  }

  lemma {:induction false} InsertedIs(group: seq<Property> -> seq<Property>, insert: Inserter, ps: seq<Property>,
                                      n: nat)
    requires n <= |ps| && GroupsBy(group, insert)
    ensures Inserted(insert, ps, n) == group(ps[..n])
    decreases n
  {
    if n > 0 {
      InsertedIs(group, insert, ps, n - 1);
      assert ps[..n] == ps[..n - 1] + [ps[n - 1]];
    }
  }

  /** Inserting one by one groups. */
  lemma {:induction false} InsertedIsGrouped(ps: seq<Property>)
    ensures Inserted(Inserting(), ps, |ps|) == Grouped(ps)
  {
    var group := (qs: seq<Property>) => Grouped(qs);
    forall qs: seq<Property>, p: Property
      ensures group(qs + [p]) == Inserting()(group(qs), p)
    {
      GroupedSnoc(qs, p);
    }
    InsertedIs(group, Inserting(), ps, |ps|);
    assert ps[..|ps|] == ps;
  }

  /** `ProfileProperties::new`. */
  method New(properties: seq<Property>) returns (r: Result<seq<Property>>)
    ensures r == if |properties| > MAX_PROPERTIES then Err else Ok(Grouped(properties))
  {
    if |properties| > MAX_PROPERTIES {
      return Err;
    }
    var grouped := InsertAll(properties);
    InsertedIsGrouped(properties);
    return Ok(grouped);
  }

  method InsertAll(properties: seq<Property>) returns (grouped: seq<Property>)
    ensures grouped == Inserted(Inserting(), properties, |properties|)
  {
    grouped := [];
    for i := 0 to |properties|
      invariant grouped == Inserted(Inserting(), properties, i)
    {
      grouped := Place(grouped, properties[i]);
    }
  }

  /** Puts a property behind its group, or at the end. */
  method Place(ps: seq<Property>, p: Property) returns (r: seq<Property>)
    ensures r == Insert(ps, p)
  {
    var at := RPosition(ps, p.name);
    if at >= 0 {
      r := ps[..at + 1] + [p] + ps[at + 1..];
    } else {
      r := ps + [p];
    }
  }

  method RPosition(ps: seq<Property>, name: Text) returns (i: int)
    ensures i == LastIndex(ps, name)
  {
    i := |ps| - 1;
    while i >= 0 && ps[i].name != name
      invariant -1 <= i < |ps|
      invariant forall k :: i < k < |ps| ==> ps[k].name != name
    {
      i := i - 1;
    }
    LastIndexUnique(ps, name, i);
  }

  /** Grouping is stable: every name keeps its own sequence of properties. */
  lemma {:induction false} GroupedKeepsMultimap(ps: seq<Property>)
    ensures SameMultimap(Grouped(ps), ps)
    decreases |ps|
  {
    if ps != [] {
      var gone := ps[0].name;
      WithoutShorter(gone, ps);
      GroupedKeepsMultimap(Without(gone, ps));
      forall name
        ensures Of(name, Grouped(ps)) == Of(name, ps)
      {
        OfAppend(name, Of(gone, ps), Grouped(Without(gone, ps)));
        OfOf(name, gone, ps);
        OfWithout(name, gone, ps);
      }
    }
  }

  lemma {:induction false} SplitMultiset(name: Text, ps: seq<Property>)
    ensures multiset(Of(name, ps)) + multiset(Without(name, ps)) == multiset(ps)
  {
    if ps != [] {
      assert ps == [ps[0]] + ps[1..];
      SplitMultiset(name, ps[1..]);
    }
  }

  /** Grouping permutes. */
  lemma {:induction false} GroupedPermutes(ps: seq<Property>)
    ensures multiset(Grouped(ps)) == multiset(ps)
    decreases |ps|
  {
    if ps != [] {
      var name := ps[0].name;
      WithoutShorter(name, ps);
      SplitMultiset(name, ps);
      GroupedPermutes(Without(name, ps));
    }
  }

  /** Where a name occurs first, or the length of the list. */
  function First(ps: seq<Property>, name: Text): (i: nat)
    ensures i <= |ps|
  {
    if ps == [] || ps[0].name == name then 0 else 1 + First(ps[1..], name)
  }

  lemma {:induction false} FirstAtHead(ps: seq<Property>, name: Text)
    requires ps != []
    ensures First(ps, name) == 0 <==> ps[0].name == name
  {
  }

  lemma {:induction false} FirstSkips(a: seq<Property>, b: seq<Property>, name: Text)
    requires forall p :: p in a ==> p.name != name
    ensures First(a + b, name) == |a| + First(b, name)
    decreases |a|
  {
    if a == [] {
      assert a + b == b;
    } else {
      assert a[0] in a && (a + b)[1..] == a[1..] + b;
      FirstSkips(a[1..], b, name);
    }
  }

  lemma {:induction false} WithoutKeepsOrder(gone: Text, ps: seq<Property>, a: Text, b: Text)
    requires a != gone && b != gone
    ensures First(Without(gone, ps), a) < First(Without(gone, ps), b) <==> First(ps, a) < First(ps, b)
    decreases |ps|
  {
    if ps != [] {
      WithoutKeepsOrder(gone, ps[1..], a, b);
      var rest := Without(gone, ps[1..]);
      if ps[0].name == gone {
        assert [] + rest == rest;
      } else {
        FirstCons(ps[0], rest, a);
        FirstCons(ps[0], rest, b);
      }
    }
  }

  lemma {:induction false} FirstCons(p: Property, ps: seq<Property>, name: Text)
    ensures First([p] + ps, name) == if p.name == name then 0 else 1 + First(ps, name)
  {
    assert ([p] + ps)[1..] == ps;
  }

  /** Grouping keeps the names in the order of their first occurrence. */
  lemma {:induction false} GroupedKeepsOrder(ps: seq<Property>, a: Text, b: Text)
    ensures First(Grouped(ps), a) < First(Grouped(ps), b) <==> First(ps, a) < First(ps, b)
    decreases |ps|
  {
    if ps != [] && a != b {
      var name := ps[0].name;
      var group, rest := Of(name, ps), Without(name, ps);
      GroupedStep(ps);
      OfNames(name, ps);
      assert group[0] == ps[0] && Grouped(ps)[0] == ps[0];
      FirstAtHead(ps, a);
      FirstAtHead(ps, b);
      FirstAtHead(Grouped(ps), a);
      FirstAtHead(Grouped(ps), b);
      if a != name && b != name {
        WithoutShorter(name, ps);
        GroupedKeepsOrder(rest, a, b);
        WithoutKeepsOrder(name, ps, a, b);
        FirstSkips(group, Grouped(rest), a);
        FirstSkips(group, Grouped(rest), b);
      }
    }
  }

  /** No other name stands between two properties of one name. */
  ghost predicate Contiguous(ps: seq<Property>) {
    forall i, j, k :: 0 <= i < j < k < |ps| && ps[i].name == ps[k].name ==> ps[j].name == ps[i].name
  }

  lemma ContiguousJoin(name: Text, a: seq<Property>, b: seq<Property>)
    requires forall i :: 0 <= i < |a| ==> a[i].name == name
    requires forall i :: 0 <= i < |b| ==> b[i].name != name
    requires Contiguous(b)
    ensures Contiguous(a + b)
  {
    var ab := a + b;
    forall i, j, k | 0 <= i < j < k < |ab| && ab[i].name == ab[k].name
      ensures ab[j].name == ab[i].name
    {
      if i >= |a| {
        assert b[j - |a|].name == b[i - |a|].name;
      }
    }
  }

  lemma {:induction false} GroupedContiguous(ps: seq<Property>)
    ensures Contiguous(Grouped(ps))
    decreases |ps|
  {
    if ps != [] {
      var name := ps[0].name;
      var rest := Without(name, ps);
      WithoutShorter(name, ps);
      GroupedContiguous(rest);
      OfNames(name, ps);
      WithoutNames(name, ps);
      GroupedNames(rest);
      assert forall i :: 0 <= i < |Of(name, ps)| ==> Of(name, ps)[i] in Of(name, ps);
      assert forall i :: 0 <= i < |Grouped(rest)| ==> Grouped(rest)[i] in Grouped(rest);
      ContiguousJoin(name, Of(name, ps), Grouped(rest));
    }
  }

  lemma {:induction false} OfNone(name: Text, ps: seq<Property>)
    requires forall i :: 0 <= i < |ps| ==> ps[i].name != name
    ensures Of(name, ps) == [] && Without(name, ps) == ps
  {
    if ps != [] {
      OfNone(name, ps[1..]);
    }
  }

  lemma {:induction false} OfAll(name: Text, ps: seq<Property>)
    requires forall i :: 0 <= i < |ps| ==> ps[i].name == name
    ensures Of(name, ps) == ps && Without(name, ps) == []
  {
    if ps != [] {
      OfAll(name, ps[1..]);
    }
  }

  /** A name that occurs exactly in one slice maps to that slice. */
  lemma {:induction false} OfSlice(name: Text, ps: seq<Property>, start: nat, end: nat)
    requires start <= end <= |ps|
    requires forall i :: 0 <= i < |ps| ==> (ps[i].name == name <==> start <= i < end)
    ensures Of(name, ps) == ps[start..end]
    ensures Without(name, ps) == ps[..start] + ps[end..]
  {
    var a, b, c := ps[..start], ps[start..end], ps[end..];
    assert ps == a + (b + c);
    OfNone(name, a);
    OfAll(name, b);
    OfNone(name, c);
    OfAppend(name, a, b + c);
    OfAppend(name, b, c);
    WithoutMiddle(name, a, b, c);
  }

  lemma {:induction false} WithoutMiddle(name: Text, a: seq<Property>, b: seq<Property>, c: seq<Property>)
    requires Without(name, a) == a && Without(name, b) == [] && Without(name, c) == c
    ensures Without(name, a + (b + c)) == a + c
  {
    calc {
      Without(name, a + (b + c));
    == { WithoutAppend(name, a, b + c); }
      a + Without(name, b + c);
    == { WithoutAppend(name, b, c); }
      a + ([] + c);
    == { assert [] + c == c; }
      a + c;
    }
  }

  /** Where the run of equal names that begins at `start` ends. */
  function RunEnd(ps: seq<Property>, start: nat, from: nat): (end: nat)
    requires start < from <= |ps|
    ensures from <= end <= |ps|
    ensures forall i :: from <= i < end ==> ps[i].name == ps[start].name
    ensures end < |ps| ==> ps[end].name != ps[start].name
    decreases |ps| - from
  {
    if from == |ps| || ps[from].name != ps[start].name then from else RunEnd(ps, start, from + 1)
  }

  /** `property_group_end`. */
  method PropertyGroupEnd(ps: seq<Property>, start: nat) returns (end: nat)
    ensures end == if start < |ps| then RunEnd(ps, start, start + 1) else start
  {
    if start >= |ps| {
      return start;
    }
    end := start + 1;
    while end < |ps| && ps[end].name == ps[start].name
      invariant start < end <= |ps|
      invariant RunEnd(ps, start, end) == RunEnd(ps, start, start + 1)
    {
      end := end + 1;
    }
  }

  /** Where a name starts for the first time, or -1. */
  method Position(ps: seq<Property>, name: Text) returns (at: int)
    ensures -1 <= at < |ps|
    ensures at >= 0 ==> ps[at].name == name
    ensures forall i :: 0 <= i < (if at < 0 then |ps| else at) ==> ps[i].name != name
  {
    at := 0;
    while at < |ps| && ps[at].name != name
      invariant 0 <= at <= |ps|
      invariant forall i :: 0 <= i < at ==> ps[i].name != name
    {
      at := at + 1;
    }
    if at == |ps| {
      at := -1;
    }
  }

  /** In a contiguous list the run at the first occurrence of a name is its whole group. */
  lemma {:induction false} RunIsGroup(ps: seq<Property>, start: nat, end: nat)
    requires Contiguous(ps) && start < end <= |ps|
    requires forall i :: 0 <= i < start ==> ps[i].name != ps[start].name
    requires forall i :: start <= i < end ==> ps[i].name == ps[start].name
    requires end < |ps| ==> ps[end].name != ps[start].name
    ensures forall i :: 0 <= i < |ps| ==> (ps[i].name == ps[start].name <==> start <= i < end)
    ensures Of(ps[start].name, ps) == ps[start..end]
    ensures Without(ps[start].name, ps) == ps[..start] + ps[end..]
  {
    forall i | end <= i < |ps|
      ensures ps[i].name != ps[start].name
    {
    }
    OfSlice(ps[start].name, ps, start, end);
  }

  /** A contiguous list is already grouped; with `GroupedContiguous`, grouping is idempotent. */
  lemma {:induction false} ContiguousIsGrouped(ps: seq<Property>)
    requires Contiguous(ps)
    ensures Grouped(ps) == ps
    decreases |ps|
  {
    if ps != [] {
      var end := FirstGroup(ps);
      ContiguousIsGrouped(ps[end..]);
      GroupedStep(ps);
      assert ps[..end] + ps[end..] == ps;
    }
  }

  /** The first run of a contiguous list is its first group. */
  lemma FirstGroup(ps: seq<Property>) returns (end: nat)
    requires ps != [] && Contiguous(ps)
    ensures 0 < end <= |ps| && Contiguous(ps[end..])
    ensures Of(ps[0].name, ps) == ps[..end] && Without(ps[0].name, ps) == ps[end..]
  {
    end := RunEnd(ps, 0, 1);
    RunIsGroup(ps, 0, end);
    ContiguousDrop(ps, end);
    NothingBefore(ps, end);
  }

  lemma NothingBefore(ps: seq<Property>, end: nat)
    requires end <= |ps|
    ensures ps[0..end] == ps[..end] && ps[..0] + ps[end..] == ps[end..]
  {
  }

  lemma ContiguousDrop(ps: seq<Property>, n: nat)
    requires Contiguous(ps) && n <= |ps|
    ensures Contiguous(ps[n..])
  {
  }

  lemma {:induction false} GroupingIsIdempotent(ps: seq<Property>)
    ensures Grouped(Grouped(ps)) == Grouped(ps)
  {
    GroupedContiguous(ps);
    ContiguousIsGrouped(Grouped(ps));
  }

  // ---------------------------------------------------------------- equality

  lemma {:induction false} SameMultimapSameSize(a: seq<Property>, b: seq<Property>)
    requires SameMultimap(a, b)
    ensures |a| == |b|
    decreases |a|
  {
    if a == [] {
      var name := if b == [] then [] else b[0].name;
      assert Of(name, b) == Of(name, a);
    } else {
      var gone := a[0].name;
      WithoutShorter(gone, a);
      forall name
        ensures Of(name, Without(gone, a)) == Of(name, Without(gone, b))
      {
        OfWithout(name, gone, a);
        OfWithout(name, gone, b);
      }
      SameMultimapSameSize(Without(gone, a), Without(gone, b));
      SizesAdd(gone, a);
      SizesAdd(gone, b);
      assert Of(gone, a) == Of(gone, b);
    }
  }

  /** Between lists of one length, agreeing on the names of one is agreeing on all names. */
  lemma {:induction false} OneSidedIsEnough(a: seq<Property>, b: seq<Property>)
    requires |a| == |b|
    requires forall p :: p in a ==> Of(p.name, a) == Of(p.name, b)
    ensures SameMultimap(a, b)
    decreases |a|
  {
    if a != [] {
      var gone := a[0].name;
      var a' := Without(gone, a);
      var b' := Without(gone, b);
      WithoutShorter(gone, a);
      SizesAdd(gone, a);
      SizesAdd(gone, b);
      assert a[0] in a;
      WithoutNames(gone, a);
      forall p | p in a'
        ensures Of(p.name, a') == Of(p.name, b')
      {
        OfWithout(p.name, gone, a);
        OfWithout(p.name, gone, b);
      }
      OneSidedIsEnough(a', b');
      forall name
        ensures Of(name, a) == Of(name, b)
      {
        OfWithout(name, gone, a);
        OfWithout(name, gone, b);
        assert Of(name, a') == Of(name, b');
      }
    }
  }

  /** The walk over the groups of the left list decides equality of the two multimaps. */
  method Equal(left: seq<Property>, right: seq<Property>) returns (same: bool)
    requires Contiguous(left) && Contiguous(right)
    ensures same <==> SameMultimap(left, right)
  {
    if |left| != |right| {
      if SameMultimap(left, right) {
        SameMultimapSameSize(left, right);
      }
      return false;
    }
    var start := 0;
    while start < |left|
      invariant 0 <= start <= |left|
      invariant forall i, k :: 0 <= i < start <= k < |left| ==> left[i].name != left[k].name
      invariant forall i :: 0 <= i < start ==> Of(left[i].name, left) == Of(left[i].name, right)
    {
      var agrees, end := GroupAgrees(left, right, start);
      if !agrees {
        return false;
      }
      start := end;
    }
    forall p | p in left
      ensures Of(p.name, left) == Of(p.name, right)
    {
      var i :| 0 <= i < |left| && left[i] == p;
    }
    OneSidedIsEnough(left, right);
    return true;
  }

  /** Compares the group that begins at `start` with the group of that name on the right. */
  method GroupAgrees(left: seq<Property>, right: seq<Property>, start: nat) returns (agrees: bool, end: nat)
    requires Contiguous(left) && Contiguous(right) && start < |left|
    requires forall i, k :: 0 <= i < start <= k < |left| ==> left[i].name != left[k].name
    ensures agrees <==> Of(left[start].name, left) == Of(left[start].name, right)
    ensures start < end <= |left|
    ensures forall i :: 0 <= i < |left| ==> (left[i].name == left[start].name <==> start <= i < end)
  {
    var name := left[start].name;
    end := PropertyGroupEnd(left, start);
    RunIsGroup(left, start, end);
    var rightStart := Position(right, name);
    if rightStart < 0 {
      OfNone(name, right);
      return false, end;
    }
    var rightEnd := PropertyGroupEnd(right, rightStart);
    RunIsGroup(right, rightStart, rightEnd);
    return left[start..end] == right[rightStart..rightEnd], end;
  }

  /** Regrouping never changes which profiles are equal. */
  lemma {:induction false} EqualAfterGrouping(a: seq<Property>, b: seq<Property>)
    ensures SameMultimap(Grouped(a), Grouped(b)) <==> SameMultimap(a, b)
  {
    GroupedKeepsMultimap(a);
    GroupedKeepsMultimap(b);
    forall name
      ensures Of(name, Grouped(a)) == Of(name, a) && Of(name, Grouped(b)) == Of(name, b)
    {
    }
  }
}
