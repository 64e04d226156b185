/**
 Generic sequence vocabulary shared by the name source, the draw engine and
 the group engine: order-preserving filtering, subsequences, one-level
 flattening and duplicate-freedom.
 */
module Seqs {

  /** `a` is obtained from `b` by deleting zero or more elements, keeping the
      order of the rest. */
  ghost predicate IsSubsequence<T>(a: seq<T>, b: seq<T>)
    decreases |b|
  {
    if |a| == 0 then true
    else if |b| == 0 then false
    else (a[0] == b[0] && IsSubsequence(a[1..], b[1..])) || IsSubsequence(a, b[1..])
  }

  /** Every sequence is a subsequence of itself. */
  lemma {:induction false} SubsequenceRefl<T>(s: seq<T>)
    ensures IsSubsequence(s, s)
  {
    if |s| > 0 {
      SubsequenceRefl(s[1..]);
    }
  }

  /** Array.prototype.filter: the elements of `s` satisfying `p`, in order.
      Every copy of a kept value is kept and every copy of a dropped value is
      dropped. */
  function Filter<T(!new)>(p: T -> bool, s: seq<T>): (r: seq<T>)
    ensures |r| <= |s|
    ensures forall i :: 0 <= i < |r| ==> p(r[i])
    ensures IsSubsequence(r, s)
  {
    if |s| == 0 then []
    else
      var rest := Filter(p, s[1..]);
      assert s == [s[0]] + s[1..];
      if p(s[0]) then [s[0]] + rest else rest
  }

  /** A value survives filtering exactly when it occurs and passes. */
  lemma {:induction false} FilterMembers<T(!new)>(p: T -> bool, s: seq<T>, x: T)
    ensures x in Filter(p, s) <==> x in s && p(x)
  {
    if |s| > 0 {
      FilterMembers(p, s[1..], x);
      assert s == [s[0]] + s[1..];
    }
  }

  /** Filtering keeps every copy of a kept value and no copy of a dropped
      one. */
  lemma {:induction false} FilterCount<T(!new)>(p: T -> bool, s: seq<T>, x: T)
    ensures multiset(Filter(p, s))[x] == if p(x) then multiset(s)[x] else 0
  {
    if |s| > 0 {
      FilterCount(p, s[1..], x);
      assert s == [s[0]] + s[1..];
    }
  }

  /** Filtering with a predicate that holds of every element changes nothing. */
  lemma {:induction false} FilterKeepsAll<T(!new)>(p: T -> bool, s: seq<T>)
    requires forall i :: 0 <= i < |s| ==> p(s[i])
    ensures Filter(p, s) == s
  {
    if |s| > 0 {
      FilterKeepsAll(p, s[1..]);
    }
  }

  /** Filtering with a stronger predicate keeps no more elements, and strictly
      fewer when some element passes the weaker one but not the stronger. */
  lemma {:induction false} FilterStronger<T(!new)>(p: T -> bool, q: T -> bool, s: seq<T>)
    requires forall i :: 0 <= i < |s| ==> q(s[i]) ==> p(s[i])
    ensures |Filter(q, s)| <= |Filter(p, s)|
    ensures (exists i :: 0 <= i < |s| && p(s[i]) && !q(s[i])) ==> |Filter(q, s)| < |Filter(p, s)|
  {
    if |s| > 0 {
      FilterStronger(p, q, s[1..]);
      if exists i :: 0 <= i < |s| && p(s[i]) && !q(s[i]) {
        var i :| 0 <= i < |s| && p(s[i]) && !q(s[i]);
        if i > 0 {
          assert s[1..][i - 1] == s[i];
        }
      }
    }
  }

  /** Array.prototype.flat for one level: the rows concatenated in order. */
  function Flatten<T>(xss: seq<seq<T>>): seq<T> {
    if |xss| == 0 then [] else xss[0] + Flatten(xss[1..])
  }

  /** A value occurs in the flattening exactly when it occurs in some row. */
  lemma {:induction false} FlattenMembers<T>(xss: seq<seq<T>>, x: T)
    ensures x in Flatten(xss) <==> exists i :: 0 <= i < |xss| && x in xss[i]
  {
    if |xss| > 0 {
      FlattenMembers(xss[1..], x);
      assert forall i :: 1 <= i < |xss| ==> xss[i] == xss[1..][i - 1];
      if x in Flatten(xss[1..]) {
        var i :| 0 <= i < |xss[1..]| && x in xss[1..][i];
        assert x in xss[i + 1];
      }
    }
  }

  /** Flattening distributes over concatenation of the outer sequence. */
  lemma {:induction false} FlattenConcat<T>(a: seq<seq<T>>, b: seq<seq<T>>)
    ensures Flatten(a + b) == Flatten(a) + Flatten(b)
  {
    if |a| == 0 {
      assert a + b == b;
    } else {
      assert (a + b)[1..] == a[1..] + b;
      FlattenConcat(a[1..], b);
      assert Flatten(a + b) == a[0] + (Flatten(a[1..]) + Flatten(b));
    }
  }

  /** Element m of row k sits in the flattening right after the rows before
      row k. */
  lemma FlattenAt<T>(xss: seq<seq<T>>, k: nat, m: nat)
    requires k < |xss| && m < |xss[k]|
    ensures |Flatten(xss[..k])| + m < |Flatten(xss)|
    ensures Flatten(xss)[|Flatten(xss[..k])| + m] == xss[k][m]
  {
    assert xss == xss[..k] + xss[k..];
    FlattenConcat(xss[..k], xss[k..]);
  }

  /** Flattening one more row appends that row. */
  lemma FlattenSnoc<T>(xss: seq<seq<T>>, k: nat)
    requires k < |xss|
    ensures Flatten(xss[..k + 1]) == Flatten(xss[..k]) + xss[k]
  {
    assert xss[..k + 1] == xss[..k] + [xss[k]];
    FlattenConcat(xss[..k], [xss[k]]);
    assert Flatten([xss[k]]) == xss[k] + Flatten([]);
  }

  ghost predicate NoDuplicates<T>(s: seq<T>) {
    forall i, j :: 0 <= i < j < |s| ==> s[i] != s[j]
  }

  /** Putting a new value in front keeps a sequence duplicate-free. */
  lemma PrependNoDuplicates<T>(x: T, s: seq<T>)
    requires NoDuplicates(s) && x !in s
    ensures NoDuplicates([x] + s)
  {
    var t := [x] + s;
    forall i, j | 0 <= i < j < |t| ensures t[i] != t[j] {
      assert t[j] == s[j - 1];
      if i > 0 {
        assert t[i] == s[i - 1];
      }
    }
  }

  /** The set of values occurring in `s`. */
  ghost function Distinct<T>(s: seq<T>): set<T> {
    set x | x in s
  }

  /** A duplicate-free sequence has as many elements as distinct values. */
  lemma {:induction false} NoDuplicatesCard<T>(s: seq<T>)
    requires NoDuplicates(s)
    ensures |Distinct(s)| == |s|
  {
    if |s| > 0 {
      NoDuplicatesCard(s[1..]);
      assert Distinct(s) == {s[0]} + Distinct(s[1..]);
      assert s[0] !in Distinct(s[1..]);
    }
  }

  /** A subset is no larger than its superset. */
  lemma {:induction false} SubsetCard<T>(a: set<T>, b: set<T>)
    requires a <= b
    ensures |a| <= |b|
    ensures |a| == |b| ==> a == b
    decreases |b|
  {
    if b != {} {
      var y :| y in b;
      SubsetCard(a - {y}, b - {y});
      assert |b - {y}| == |b| - 1;
      if y in a {
        assert |a - {y}| == |a| - 1;
        assert a == (a - {y}) + {y};
        assert b == (b - {y}) + {y};
      } else {
        assert a - {y} == a;
      }
    }
  }

  function Min(a: int, b: int): int {
    if a <= b then a else b
  }
}
