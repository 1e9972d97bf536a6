/** Lists of lists. */
module Sequences {

  function Flatten<T>(blocks: seq<seq<T>>): seq<T> {
    if blocks == [] then [] else Flatten(blocks[..|blocks| - 1]) + blocks[|blocks| - 1]
  }

  lemma {:induction false} FlattenSnoc<T>(blocks: seq<seq<T>>, block: seq<T>)
    ensures Flatten(blocks + [block]) == Flatten(blocks) + block
  {
    assert (blocks + [block])[..|blocks|] == blocks;
  }

  // ---------------------------------------------------------------- positions

  /** Where a block starts in the flattened list. */
  function Offset<T>(blocks: seq<seq<T>>, i: nat): nat
    requires i <= |blocks|
  {
    if i == 0 then 0 else Offset(blocks, i - 1) + |blocks[i - 1]|
  }

  lemma {:induction false} OffsetPrefix<T>(blocks: seq<seq<T>>, n: nat, i: nat)
    requires i <= n <= |blocks|
    ensures Offset(blocks[..n], i) == Offset(blocks, i)
  {
    if i > 0 {
      OffsetPrefix(blocks, n, i - 1);
    }
  }

  lemma {:induction false} FlattenSize<T>(blocks: seq<seq<T>>)
    ensures |Flatten(blocks)| == Offset(blocks, |blocks|)
    decreases |blocks|
  {
    if blocks != [] {
      var n := |blocks| - 1;
      FlattenSize(blocks[..n]);
      OffsetPrefix(blocks, n, n);
    }
  }

  lemma {:induction false} FlattenAt<T>(blocks: seq<seq<T>>, i: nat, j: nat)
    requires i < |blocks| && j < |blocks[i]|
    ensures Offset(blocks, i) + j < |Flatten(blocks)|
    ensures Flatten(blocks)[Offset(blocks, i) + j] == blocks[i][j]
    decreases |blocks|
  {
    var n := |blocks| - 1;
    FlattenSize(blocks[..n]);
    OffsetPrefix(blocks, n, i);
    if i < n {
      FlattenAt(blocks[..n], i, j);
    }
  }

  lemma {:induction false} FlattenLocate<T>(blocks: seq<seq<T>>, n: nat, a: nat) returns (i: nat, j: nat)
    requires n <= |blocks| && a < Offset(blocks, n)
    ensures i < n && j < |blocks[i]| && a == Offset(blocks, i) + j
  {
    if a >= Offset(blocks, n - 1) {
      i, j := n - 1, a - Offset(blocks, n - 1);
    } else {
      i, j := FlattenLocate(blocks, n - 1, a);
    }
  }

  // ---------------------------------------------------------------- prefixes

  /** How many blocks lie entirely within the first `n` elements. */
  function Whole<T>(blocks: seq<seq<T>>, n: nat): (k: nat)
    ensures k <= |blocks| && |Flatten(blocks[..k])| <= n
    decreases |blocks|
  {
    assert blocks[..|blocks|] == blocks;
    if |Flatten(blocks)| <= n then |blocks|
    else
      var init := blocks[..|blocks| - 1];
      var k := Whole(init, n);
      assert init[..k] == blocks[..k];
      k
  }

  /** The first `n` elements are the whole blocks and a proper part of the next one, if any. */
  lemma {:induction false} FlattenCut<T>(blocks: seq<seq<T>>, n: nat)
    requires n <= |Flatten(blocks)|
    ensures var k := Whole(blocks, n);
            var m := n - |Flatten(blocks[..k])|;
            && (k == |blocks| ==> Flatten(blocks)[..n] == Flatten(blocks))
            && (k < |blocks| ==> m < |blocks[k]| && Flatten(blocks)[..n] == Flatten(blocks[..k]) + blocks[k][..m])
    decreases |blocks|
  {
    assert blocks[..|blocks|] == blocks;
    if n < |Flatten(blocks)| {
      var last := |blocks| - 1;
      var init := blocks[..last];
      if n < |Flatten(init)| {
        FlattenCut(init, n);
        assert init[..Whole(init, n)] == blocks[..Whole(init, n)];
        assert Flatten(blocks)[..n] == Flatten(init)[..n];
        assert init[..last] == init;
      } else {
        assert init[..last] == init;
      }
    }
  }

  /** Continuing a prefix of `data` by the next `k` elements gives the longer prefix. */
  lemma PrefixGrows<T>(base: seq<T>, data: seq<T>, i: nat, k: nat)
    requires i + k <= |data|
    ensures base + data[..i] + data[i..][..k] == base + data[..i + k]
  {
    assert data[..i] + data[i..][..k] == data[..i + k];
  }
}
