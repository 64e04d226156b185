/**
 The draw engine. A session keeps the winners so far (most recent first), the
 last committed winner and the repeat switch. The random index of the final
 pick is a parameter; the spinning preview is not part of the state.
 */
module LuckyDraw {
  import opened Wrappers
  import opened Seqs

  datatype DrawState = DrawState(history: seq<string>, winner: Option<string>, allowRepeat: bool)

  /** A freshly mounted draw panel: no winners, no winner shown, repeats off. */
  const Initial: DrawState := DrawState([], None, false)

  /** The filter applied when repeats are off: keep a name whose value has
      not been drawn yet. */
  function Undrawn(history: seq<string>): string -> bool {
    n => n !in history
  }

  /** The names a draw may pick from. With repeats on it is the whole list;
      with repeats off it keeps, in order, the entries whose value is not in
      the history. It is always a subsequence of the list. */
  function Pool(names: seq<string>, s: DrawState): (pool: seq<string>)
    ensures s.allowRepeat ==> pool == names
    ensures !s.allowRepeat ==> forall i :: 0 <= i < |pool| ==> pool[i] !in s.history
    ensures IsSubsequence(pool, names)
  {
    if s.allowRepeat then
      SubsequenceRefl(names);
      names
    else
      var pool := Filter(Undrawn(s.history), names);
      assert forall i :: 0 <= i < |pool| ==> Undrawn(s.history)(pool[i]);
      pool
  }

  /** A value is eligible exactly when it is in the list and, with repeats
      off, has not been drawn. */
  lemma PoolMembers(names: seq<string>, s: DrawState, x: string)
    ensures x in Pool(names, s) <==> x in names && (s.allowRepeat || x !in s.history)
  {
    if !s.allowRepeat {
      FilterMembers(Undrawn(s.history), names, x);
    }
  }

  /** Exclusion is by value: an undrawn value keeps every one of its copies,
      and once a value is drawn all of its copies leave the pool. */
  lemma PoolCount(names: seq<string>, s: DrawState, x: string)
    ensures multiset(Pool(names, s))[x] ==
              if s.allowRepeat || x !in s.history then multiset(names)[x] else 0
  {
    if !s.allowRepeat {
      FilterCount(Undrawn(s.history), names, x);
    }
  }

  /** Clicking the draw button. With an empty pool nothing changes (the
      source only shows a notice). Otherwise the pick at `idx` is committed:
      it is an eligible name, it becomes the winner, and it is put in front of
      the history, which grows by exactly one; with repeats off it was not
      drawn before. */
  function Draw(names: seq<string>, s: DrawState, idx: nat): (r: DrawState)
    requires Pool(names, s) != [] ==> idx < |Pool(names, s)|
    ensures Pool(names, s) == [] ==> r == s
    ensures Pool(names, s) != [] ==>
              && r.winner == Some(Pool(names, s)[idx])
              && r.winner.value in names
              && r.history == [r.winner.value] + s.history
              && r.allowRepeat == s.allowRepeat
    ensures Pool(names, s) != [] && !s.allowRepeat ==> r.winner.value !in s.history
  {
    var pool := Pool(names, s);
    if |pool| == 0 then s
    else
      var w := pool[idx];
      PoolMembers(names, s, w);
      DrawState([w] + s.history, Some(w), s.allowRepeat)
  }

  /** Clearing the record: no winners and no winner shown; the repeat switch
      is kept. */
  function Reset(s: DrawState): (r: DrawState)
    ensures r.history == [] && r.winner == None
    ensures r.allowRepeat == s.allowRepeat
  {
    s.(history := [], winner := None)
  }

  /** Clearing twice is clearing once. */
  lemma ResetIdempotent(s: DrawState)
    ensures Reset(Reset(s)) == Reset(s)
  {
  }

  /** After a reset every entry of the list is eligible again, whatever the
      repeat switch says. */
  lemma ResetRestoresPool(names: seq<string>, s: DrawState)
    ensures Pool(names, Reset(s)) == names
  {
    if !s.allowRepeat {
      FilterKeepsAll(Undrawn([]), names);
    }
  }

  /** Flipping the repeat switch touches neither the history nor the winner. */
  function ToggleRepeat(s: DrawState): (r: DrawState)
    ensures r.allowRepeat != s.allowRepeat
    ensures r.history == s.history && r.winner == s.winner
  {
    s.(allowRepeat := !s.allowRepeat)
  }

  /** With repeats off, a successful draw strictly shrinks the pool. */
  lemma DrawShrinksPool(names: seq<string>, s: DrawState, idx: nat)
    requires !s.allowRepeat
    requires Pool(names, s) != [] && idx < |Pool(names, s)|
    ensures |Pool(names, Draw(names, s, idx))| < |Pool(names, s)|
  {
    var r := Draw(names, s, idx);
    var w := r.winner.value;
    PoolMembers(names, s, w);
    var k :| 0 <= k < |names| && names[k] == w;
    FilterStronger(Undrawn(s.history), Undrawn(r.history), names);
  }

  /** Every recorded winner is an entry of the list. */
  ghost predicate Recorded(names: seq<string>, s: DrawState) {
    forall i :: 0 <= i < |s.history| ==> s.history[i] in names
  }

  /** With repeats off and every winner recorded from the list, the history
      has no more entries than the list has distinct values. */
  lemma HistoryBounded(names: seq<string>, s: DrawState)
    requires Recorded(names, s) && NoDuplicates(s.history)
    ensures |s.history| <= |Distinct(names)|
  {
    NoDuplicatesCard(s.history);
    SubsetCard(Distinct(s.history), Distinct(names));
  }

  /** Under the same invariant the pool is empty exactly when every distinct
      value of the list has been drawn once. */
  lemma ExhaustedExactly(names: seq<string>, s: DrawState)
    requires !s.allowRepeat
    requires Recorded(names, s) && NoDuplicates(s.history)
    ensures Pool(names, s) == [] <==> |s.history| == |Distinct(names)|
  {
    NoDuplicatesCard(s.history);
    SubsetCard(Distinct(s.history), Distinct(names));
    if Pool(names, s) == [] {
      forall x | x in Distinct(names) ensures x in Distinct(s.history) {
        PoolMembers(names, s, x);
      }
      assert Distinct(names) <= Distinct(s.history);
      SubsetCard(Distinct(names), Distinct(s.history));
    } else {
      var x := Pool(names, s)[0];
      PoolMembers(names, s, x);
      assert x in Distinct(names) && x !in Distinct(s.history);
    }
  }

  /** The pool index a session uses for the random value `pick`: the pick
      itself when it lies inside the pool, the first entry otherwise, so
      every index of the pool is reachable. */
  function PickIndex(names: seq<string>, s: DrawState, pick: nat): (idx: nat)
    ensures Pool(names, s) != [] ==> idx < |Pool(names, s)|
    ensures pick < |Pool(names, s)| ==> idx == pick
  {
    if pick < |Pool(names, s)| then pick else 0
  }

  /** A run of draws over a fixed list. The history only grows at the front,
      by at most one entry per draw, and every new entry is from the list;
      with repeats on and a non-empty list every draw succeeds. */
  function Session(names: seq<string>, s: DrawState, picks: seq<nat>): (r: DrawState)
    ensures r.allowRepeat == s.allowRepeat
    ensures |s.history| <= |r.history| <= |s.history| + |picks|
    ensures r.history[|r.history| - |s.history|..] == s.history
    ensures forall i :: 0 <= i < |r.history| - |s.history| ==> r.history[i] in names
    ensures s.allowRepeat && names != [] ==> |r.history| == |s.history| + |picks|
    decreases |picks|
  {
    if |picks| == 0 then
      assert s.history[0..] == s.history;
      s
    else if Pool(names, s) == [] then
      // Draw leaves the state as it is.
      Session(names, s, picks[1..])
    else
      var t := Draw(names, s, PickIndex(names, s, picks[0]));
      var w := t.winner.value;
      assert t.history == [w] + s.history && w in names;
      var r := Session(names, t, picks[1..]);
      PrependStep(names, s.history, t.history, r.history, w);
      r
  }

  /** If a later history `h2` grows `h1 == [w] + h0` at the front by list
      entries, it also grows `h0` at the front by list entries. */
  lemma PrependStep(names: seq<string>, h0: seq<string>, h1: seq<string>, h2: seq<string>, w: string)
    requires h1 == [w] + h0 && w in names
    requires |h1| <= |h2| && h2[|h2| - |h1|..] == h1
    requires forall i :: 0 <= i < |h2| - |h1| ==> h2[i] in names
    ensures h2[|h2| - |h0|..] == h0
    ensures forall i :: 0 <= i < |h2| - |h0| ==> h2[i] in names
  {
    var d := |h2| - |h1|;
    assert h2[d] == h2[d..][0] == w;
    assert h2[d + 1..] == h2[d..][1..];
  }

  /** With repeats off from a recorded, duplicate-free history, a session
      keeps the history duplicate-free and recorded, and the number of
      winners is the smaller of "before plus picks" and the number of
      distinct values: draws succeed until every distinct value is drawn
      once, and then the pool stays empty. */
  lemma {:induction false} SessionWithoutRepeat(names: seq<string>, s: DrawState, picks: seq<nat>)
    requires !s.allowRepeat
    requires Recorded(names, s) && NoDuplicates(s.history)
    ensures var r := Session(names, s, picks);
              && Recorded(names, r) && NoDuplicates(r.history)
              && |r.history| == Min(|s.history| + |picks|, |Distinct(names)|)
    decreases |picks|
  {
    HistoryBounded(names, s);
    if |picks| > 0 {
      ExhaustedExactly(names, s);
      if Pool(names, s) == [] {
        SessionWithoutRepeat(names, s, picks[1..]);
      } else {
        var t := Draw(names, s, PickIndex(names, s, picks[0]));
        PrependNoDuplicates(t.winner.value, s.history);
        SessionWithoutRepeat(names, t, picks[1..]);
      }
    }
  }

  /** From a fresh panel with repeats off, the winners of any session are
      pairwise different and no more than the distinct values of the list. */
  lemma FreshSessionWithoutRepeat(names: seq<string>, picks: seq<nat>)
    ensures var r := Session(names, Initial, picks);
              && NoDuplicates(r.history)
              && |r.history| == Min(|picks|, |Distinct(names)|)
              && (|picks| >= |Distinct(names)| ==> Pool(names, r) == [])
  {
    SessionWithoutRepeat(names, Initial, picks);
    var r := Session(names, Initial, picks);
    if |picks| >= |Distinct(names)| {
      ExhaustedExactly(names, r);
    }
  }
}
