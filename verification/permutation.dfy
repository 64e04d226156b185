/**
 The shuffle of the group engine, abstracted as a permutation of indices
 supplied by the caller: the shuffled copy holds at position k the entry
 perm[k] of the list.
 */
module Permutation {
  import opened Seqs

  /** `perm` lists every index below `n` exactly once. */
  ghost predicate IsPermutation(perm: seq<nat>, n: nat) {
    && |perm| == n
    && (forall k :: 0 <= k < n ==> perm[k] < n)
    && NoDuplicates(perm)
  }

  /** The list rearranged by `perm`. */
  function Shuffled<T>(names: seq<T>, perm: seq<nat>): (r: seq<T>)
    requires forall k :: 0 <= k < |perm| ==> perm[k] < |names|
    ensures |r| == |perm|
    ensures forall k :: 0 <= k < |perm| ==> r[k] == names[perm[k]]
  {
    seq(|perm|, k requires 0 <= k < |perm| => names[perm[k]])
  }

  /** The shuffled copy `[...names].sort(...)`: entry k is the list's entry
      perm[k], and when perm lists every index once the copy holds every
      entry of the list exactly as often as the list does. */
  function Permute<T>(names: seq<T>, perm: seq<nat>): (r: seq<T>)
    requires forall k :: 0 <= k < |perm| ==> perm[k] < |names|
    ensures |r| == |perm| && forall k :: 0 <= k < |perm| ==> r[k] == names[perm[k]]
    ensures IsPermutation(perm, |names|) ==> multiset(r) == multiset(names)
  {
    ShuffledIsPermutation(names, perm);
    Shuffled(names, perm)
  }

  lemma ShuffledIsPermutation<T>(names: seq<T>, perm: seq<nat>)
    requires forall k :: 0 <= k < |perm| ==> perm[k] < |names|
    ensures IsPermutation(perm, |names|) ==> multiset(Shuffled(names, perm)) == multiset(names)
  {
    if IsPermutation(perm, |names|) {
      ShuffledMultiset(names, perm);
    }
  }

  /** `s` without its element at index `k`. */
  function RemoveAt<T>(s: seq<T>, k: nat): (r: seq<T>)
    requires k < |s|
    ensures |r| == |s| - 1
    ensures forall i :: 0 <= i < |r| ==> r[i] == if i < k then s[i] else s[i + 1]
  {
    s[..k] + s[k + 1..]
  }

  lemma RemoveAtNoDuplicates<T>(s: seq<T>, k: nat)
    requires k < |s| && NoDuplicates(s)
    ensures NoDuplicates(RemoveAt(s, k))
    ensures forall i :: 0 <= i < |RemoveAt(s, k)| ==> RemoveAt(s, k)[i] != s[k]
  {
    var r := RemoveAt(s, k);
    forall i, j | 0 <= i < j < |r| ensures r[i] != r[j] {
      var i' := if i < k then i else i + 1;
      var j' := if j < k then j else j + 1;
      assert r[i] == s[i'] && r[j] == s[j'];
    }
    forall i | 0 <= i < |r| ensures r[i] != s[k] {
      var i' := if i < k then i else i + 1;
      assert r[i] == s[i'];
    }
  }

  /** Pigeonhole: a duplicate-free sequence of numbers below `m` has at most
      `m` elements. */
  lemma {:induction false} Pigeonhole(s: seq<nat>, m: nat)
    requires NoDuplicates(s)
    requires forall i :: 0 <= i < |s| ==> s[i] < m
    ensures |s| <= m
    decreases m
  {
    if |s| > 0 {
      assert s[0] < m;
      if m - 1 in s {
        var k :| 0 <= k < |s| && s[k] == m - 1;
        var t := RemoveAt(s, k);
        RemoveAtNoDuplicates(s, k);
        Pigeonhole(t, m - 1);
      } else {
        Pigeonhole(s, m - 1);
      }
    }
  }

  /** A permutation of the indices below `n` contains each of them. */
  lemma Covers(perm: seq<nat>, n: nat, v: nat)
    requires IsPermutation(perm, n) && v < n
    ensures v in perm
  {
    if v !in perm {
      // Squeeze out the gap at v: the result is a duplicate-free sequence of
      // n numbers below n - 1.
      var t := seq(n, i requires 0 <= i < n => if perm[i] > v then perm[i] - 1 else perm[i]);
      forall i, j | 0 <= i < j < n ensures t[i] != t[j] {
        assert perm[i] != perm[j] && perm[i] != v && perm[j] != v;
      }
      forall i | 0 <= i < n ensures t[i] < n - 1 {
        assert perm[i] != v;
      }
      Pigeonhole(t, n - 1);
    }
  }

  /** Taking out the position that holds the last entry leaves a shuffle of
      the list without its last entry. */
  lemma ShuffledWithoutLast<T>(names: seq<T>, perm: seq<nat>, k: nat)
    requires IsPermutation(perm, |names|) && k < |names| && perm[k] == |names| - 1
    ensures IsPermutation(RemoveAt(perm, k), |names| - 1)
    ensures var q := Shuffled(names[..|names| - 1], RemoveAt(perm, k));
              Shuffled(names, perm) == q[..k] + [names[|names| - 1]] + q[k..]
  {
    var n := |names|;
    var rest := RemoveAt(perm, k);
    RemoveAtNoDuplicates(perm, k);
    assert IsPermutation(rest, n - 1);
    var p := Shuffled(names, perm);
    var q := Shuffled(names[..n - 1], rest);
    var r := q[..k] + [names[n - 1]] + q[k..];
    assert |p| == |r|;
    forall i | 0 <= i < n ensures p[i] == r[i] {
      if i < k {
        assert perm[i] != perm[k] && rest[i] == perm[i];
        assert r[i] == q[i] == names[perm[i]];
      } else if i > k {
        assert perm[i] != perm[k] && rest[i - 1] == perm[i];
        assert r[i] == q[i - 1] == names[perm[i]];
      } else {
        assert r[i] == names[n - 1];
      }
    }
  }

  /** Shuffling by a permutation neither loses nor duplicates an entry. */
  lemma {:induction false} ShuffledMultiset<T>(names: seq<T>, perm: seq<nat>)
    requires IsPermutation(perm, |names|)
    ensures multiset(Shuffled(names, perm)) == multiset(names)
    decreases |names|
  {
    var n := |names|;
    if n > 0 {
      Covers(perm, n, n - 1);
      var k :| 0 <= k < n && perm[k] == n - 1;
      ShuffledWithoutLast(names, perm, k);
      var init := names[..n - 1];
      var rest := RemoveAt(perm, k);
      var q := Shuffled(init, rest);
      ShuffledMultiset(init, rest);
      InsertLast(names, q, k);
    }
  }

  /** Putting the last entry of `names` into a shuffle of the others gives
      the multiset of `names`. */
  lemma InsertLast<T>(names: seq<T>, q: seq<T>, k: nat)
    requires |names| > 0 && k <= |q|
    requires multiset(q) == multiset(names[..|names| - 1])
    ensures multiset(q[..k] + [names[|names| - 1]] + q[k..]) == multiset(names)
  {
    InsertMultiset(q, k, names[|names| - 1]);
    assert names == names[..|names| - 1] + [names[|names| - 1]];
  }

  /** Inserting x anywhere adds one x to the multiset. */
  lemma InsertMultiset<T>(q: seq<T>, k: nat, x: T)
    requires k <= |q|
    ensures multiset(q[..k] + [x] + q[k..]) == multiset(q) + multiset{x}
  {
    assert q == q[..k] + q[k..];
  }

  /** Every entry of the list lands at exactly one position of the
      shuffled copy. */
  lemma EachEntryOnce(perm: seq<nat>, n: nat, e: nat)
    requires IsPermutation(perm, n) && e < n
    ensures exists p :: 0 <= p < n && perm[p] == e
    ensures forall p, q :: 0 <= p < n && 0 <= q < n && perm[p] == e && perm[q] == e ==> p == q
  {
    Covers(perm, n, e);
  }
}
