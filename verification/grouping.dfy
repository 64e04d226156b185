/**
 The group engine: a shuffled copy of the list is cut into consecutive groups
 of `groupSize` names, the last group taking the remainder.
 */
module Grouping {
  import opened Seqs
  import opened Permutation
  import opened GroupSize

  /** Math.ceil(n / g) as the panel displays it, for the non-zero group sizes
      the input can hold: for a positive g the least k with n <= k * g, for a
      negative g the least k with k * g <= n. */
  function ExpectedGroupCount(n: nat, g: int): (k: int)
    requires g != 0
    ensures g > 0 ==> (k - 1) * g < n <= k * g
    ensures g < 0 ==> k * g <= n < (k - 1) * g
  {
    if g > 0 then
      var q := (n + g - 1) / g;
      assert q * g <= n + g - 1 < q * g + g;
      assert (q - 1) * g == q * g - g;
      q
    else
      var q := n / -g;
      assert q * -g <= n < q * -g - g;
      assert (-q - 1) * g == q * -g - g;
      -q
  }

  /** The ceiling is unique: two counts that both bracket n are equal. */
  lemma CeilingUnique(n: nat, g: nat, a: int, b: int)
    requires g >= 1
    requires (a - 1) * g < n <= a * g
    requires (b - 1) * g < n <= b * g
    ensures a == b
  {
    if a < b {
      MulMonotone(a, b - 1, g);
    } else if b < a {
      MulMonotone(b, a - 1, g);
    }
  }

  lemma MulStep(k: int, g: int)
    ensures (k - 1) * g + g == k * g
  {
  }

  lemma MulMonotone(x: int, y: int, g: nat)
    ensures x <= y ==> x * g <= y * g
  {
    assert y * g - x * g == (y - x) * g;
  }

  /** `for (i = 0; i < xs.length; i += g) result.push(xs.slice(i, i + g))`
      as a recursive definition. Each group holds between 1 and g names; all
      but the last hold exactly g (ChunksFlatten: they concatenate back to
      `xs`). */
  function Chunks<T>(xs: seq<T>, g: nat): (groups: seq<seq<T>>)
    requires g >= 1
    ensures forall k :: 0 <= k < |groups| ==> 1 <= |groups[k]| <= g
    ensures forall k :: 0 <= k < |groups| - 1 ==> |groups[k]| == g
    decreases |xs|
  {
    if |xs| == 0 then []
    else if |xs| <= g then [xs]
    else
      var rest := Chunks(xs[g..], g);
      var groups := [xs[..g]] + rest;
      assert forall k :: 1 <= k < |groups| ==> groups[k] == rest[k - 1];
      groups
  }

  /** The groups concatenate back to the list they were cut from. */
  lemma {:induction false} ChunksFlatten<T>(xs: seq<T>, g: nat)
    requires g >= 1
    ensures Flatten(Chunks(xs, g)) == xs
    decreases |xs|
  {
    if |xs| == 0 {
    } else if |xs| <= g {
      assert Flatten([xs]) == xs + Flatten([]);
    } else {
      var groups := Chunks(xs, g);
      ChunksFlatten(xs[g..], g);
      assert groups[1..] == Chunks(xs[g..], g);
      assert xs == xs[..g] + xs[g..];
    }
  }

  /** One step of the loop: the groups of the suffix from i are the slice
      [i, i + g) clamped to the end, then the groups of what follows. */
  lemma ChunksFrom<T>(xs: seq<T>, g: nat, i: nat)
    requires g >= 1 && i < |xs|
    ensures Chunks(xs[i..], g) == [xs[i..Min(i + g, |xs|)]] + Chunks(xs[Min(i + g, |xs|)..], g)
  {
    var ys := xs[i..];
    if |ys| <= g {
      assert xs[Min(i + g, |xs|)..] == [];
      assert Chunks<T>([], g) == [];
      assert xs[i..Min(i + g, |xs|)] == ys;
    } else {
      assert ys[g..] == xs[i + g..];
      assert ys[..g] == xs[i..i + g];
    }
  }

  /** The loop invariant survives one push of CutIntoGroups. */
  lemma CutStep<T>(xs: seq<T>, g: nat, i: nat, done: seq<seq<T>>)
    requires g >= 1 && i < |xs|
    requires done + Chunks(xs[i..], g) == Chunks(xs, g)
    ensures var next := done + [xs[i..Min(i + g, |xs|)]];
              && (i + g < |xs| ==> next + Chunks(xs[i + g..], g) == Chunks(xs, g))
              && (i + g >= |xs| ==> next == Chunks(xs, g))
  {
    ChunksFrom(xs, g, i);
    var end := Min(i + g, |xs|);
    if end == |xs| {
      assert xs[end..] == [];
    }
  }

  /** The groups before group k are full, so they hold k * g names. */
  lemma {:induction false} ChunksPrefix<T>(xs: seq<T>, g: nat, k: nat)
    requires g >= 1 && k < |Chunks(xs, g)|
    ensures |Flatten(Chunks(xs, g)[..k])| == k * g
  {
    if k > 0 {
      var groups := Chunks(xs, g);
      ChunksPrefix(xs, g, k - 1);
      FlattenSnoc(groups, k - 1);
      MulStep(k, g);
    }
  }

  /** There are ceil(|xs| / g) groups and the last holds the remaining
      |xs| - g * (count - 1) names. */
  lemma ChunksCount<T>(xs: seq<T>, g: nat)
    requires g >= 1
    ensures var c := |Chunks(xs, g)|;
              (c - 1) * g < |xs| <= c * g
    ensures var groups := Chunks(xs, g);
              |groups| > 0 ==> |groups[|groups| - 1]| == |xs| - (|groups| - 1) * g
  {
    var groups := Chunks(xs, g);
    var c := |groups|;
    ChunksFlatten(xs, g);
    if c > 0 {
      ChunksPrefix(xs, g, c - 1);
      FlattenSnoc(groups, c - 1);
      assert groups[..c] == groups;
      MulStep(c, g);
    }
  }

  /** Group k holds positions k * g onwards of `xs`, in order. */
  lemma ChunksAt<T>(xs: seq<T>, g: nat, k: nat, m: nat)
    requires g >= 1
    requires k < |Chunks(xs, g)| && m < |Chunks(xs, g)[k]|
    ensures k * g + m < |xs| && Chunks(xs, g)[k][m] == xs[k * g + m]
  {
    ChunksPrefix(xs, g, k);
    ChunksFlatten(xs, g);
    FlattenAt(Chunks(xs, g), k, m);
  }

  /** Position j of `xs` lands in group j / g at offset j % g; by
      SlotUnique no other group and offset hold that position. */
  lemma PositionInGroup<T>(xs: seq<T>, g: nat, j: nat)
    requires g >= 1 && j < |xs|
    ensures var groups := Chunks(xs, g);
              && j / g < |groups| && j % g < |groups[j / g]|
              && groups[j / g][j % g] == xs[j]
  {
    var k, m := j / g, j % g;
    assert j == k * g + m;
    OffsetInGroup(xs, g, k, m);
  }

  /** Any k, m with m < g and k * g + m inside `xs` name a slot of the
      groups, holding that element. */
  lemma OffsetInGroup<T>(xs: seq<T>, g: nat, k: nat, m: nat)
    requires g >= 1 && m < g && k * g + m < |xs|
    ensures var groups := Chunks(xs, g);
              && k < |groups| && m < |groups[k]|
              && groups[k][m] == xs[k * g + m]
  {
    var groups := Chunks(xs, g);
    var c := |groups|;
    ChunksCount(xs, g);
    MulMonotone(c, k, g);
    assert m < |groups[k]| by {
      if k == c - 1 {
        assert |groups[k]| == |xs| - k * g;
      } else {
        assert |groups[k]| == g;
      }
    }
    ChunksAt(xs, g, k, m);
  }

  /** Euclidean division is the only way to write j as k * g + m with
      0 <= m < g. */
  lemma DivUnique(j: nat, g: nat, k: int, m: int)
    requires g >= 1 && 0 <= m < g && j == k * g + m
    ensures k == j / g && m == j % g
  {
    var q, r := j / g, j % g;
    assert j == q * g + r;
    MulStep(k + 1, g);
    MulStep(q + 1, g);
    MulMonotone(k + 1, q, g);
    MulMonotone(q + 1, k, g);
  }

  /** Each slot of the groups holds a single position of `xs`: if slot m
      of group k holds position j, then k and m are j / g and j % g. */
  lemma SlotUnique<T>(xs: seq<T>, g: nat, k: nat, m: nat, j: nat)
    requires g >= 1
    requires k < |Chunks(xs, g)| && m < |Chunks(xs, g)[k]|
    requires k * g + m == j
    ensures k == j / g && m == j % g
  {
    assert |Chunks(xs, g)[k]| <= g;
    DivUnique(j, g, k, m);
  }

  /** The group count of the partition is the count the panel displays. */
  lemma ChunkCountIsExpected<T>(xs: seq<T>, g: nat)
    requires g >= 1
    ensures |Chunks(xs, g)| == ExpectedGroupCount(|xs|, g)
  {
    ChunksCount(xs, g);
    CeilingUnique(|xs|, g, |Chunks(xs, g)|, ExpectedGroupCount(|xs|, g));
  }

  /** The "generate groups" button. With an empty list the previous groups
      stay as they are. Otherwise the list is shuffled by `perm` and cut
      into groups of `groupSize`: the groups concatenate to the shuffled
      list, hold every entry of the list exactly as often as the list does,
      each hold between 1 and groupSize names, all but the last exactly
      groupSize, and their number is the displayed count. */
  method GenerateGroups(names: seq<string>, perm: seq<nat>, groupSize: int, groups: seq<seq<string>>)
    returns (result: seq<seq<string>>)
    requires groupSize >= 1
    requires |names| > 0 ==> IsPermutation(perm, |names|)
    ensures |names| == 0 ==> result == groups
    ensures |names| > 0 ==> result == Chunks(Permute(names, perm), groupSize)
    ensures |names| > 0 ==> Flatten(result) == Permute(names, perm)
    ensures |names| > 0 ==> multiset(Flatten(result)) == multiset(names)
    ensures |names| > 0 ==> forall k :: 0 <= k < |result| ==> 1 <= |result[k]| <= groupSize
    ensures |names| > 0 ==> forall k :: 0 <= k < |result| - 1 ==> |result[k]| == groupSize
    ensures |names| > 0 ==> |result| == ExpectedGroupCount(|names|, groupSize)
  {
    if |names| == 0 {
      return groups;
    }
    var shuffled := Permute(names, perm);
    result := CutIntoGroups(shuffled, groupSize);
    ChunksFlatten(shuffled, groupSize);
    ChunkCountIsExpected(shuffled, groupSize);
  }

  /** The button with the size taken from the field text. The size is the
      clamped one, so a negative entry cuts groups of one name instead of
      never finishing. */
  method GenerateFromField(names: seq<string>, perm: seq<nat>, field: string, groups: seq<seq<string>>)
    returns (result: seq<seq<string>>)
    requires |names| > 0 ==> IsPermutation(perm, |names|)
    ensures |names| == 0 ==> result == groups
    ensures |names| > 0 ==> multiset(Flatten(result)) == multiset(names)
    ensures |names| > 0 ==> |result| == ExpectedGroupCount(|names|, ClampedGroupSize(field))
    ensures |names| > 0 && CoerceGroupSize(field) >= 1 ==>
              result == Chunks(Permute(names, perm), CoerceGroupSize(field))
  {
    result := GenerateGroups(names, perm, ClampedGroupSize(field), groups);
  }

  /** The slicing loop of the button handler: it steps i by g and pushes
      the slice [i, i + g), clamped to the end of the list, so it builds
      exactly the groups of Chunks. */
  method CutIntoGroups<T>(xs: seq<T>, g: nat) returns (groups: seq<seq<T>>)
    requires g >= 1
    ensures groups == Chunks(xs, g)
  {
    var n := |xs|;
    groups := [];
    var i := 0;
    assert xs[0..] == xs;
    while i < n
      invariant 0 <= i
      invariant i < n ==> groups + Chunks(xs[i..], g) == Chunks(xs, g)
      invariant i >= n ==> groups == Chunks(xs, g)
      decreases n - i
    {
      var end := Min(i + g, n);
      CutStep(xs, g, i, groups);
      groups := groups + [xs[i..end]];
      i := i + g;
    }
  }

  /** The loop index of the slicing loop after `steps` passes of
      `i += size`, starting from 0. */
  function IndexAfter(size: int, steps: nat): int {
    if steps == 0 then 0 else IndexAfter(size, steps - 1) + size
  }

  /** With a negative size the index never grows, so for a non-empty list
      the guard `i < names.length` holds after every pass: the loop as
      written does not end. */
  lemma {:induction false} NegativeSizeNeverEnds(n: nat, size: int, steps: nat)
    requires n > 0 && size < 0
    ensures IndexAfter(size, steps) <= 0 < n
  {
    if steps > 0 {
      NegativeSizeNeverEnds(n, size, steps - 1);
    }
  }
}
