/** The strip map: how positions of the marked-up text move when the markers go. */
module MarkdownStrip {
  import opened Sorting
  import opened Markdown

  // ---------------------------------------------------------------- kept positions

  lemma {:induction false} KeptMonotone(ms: seq<Match>, p: nat, q: nat)
    requires p <= q
    ensures Kept(ms, p) <= Kept(ms, q) <= Kept(ms, p) + (q - p)
    decreases q
  {
    if p < q {
      KeptMonotone(ms, p, q - 1);
    }
  }

  lemma {:induction false} SurvivorsLength(text: string, ms: seq<Match>, lo: nat, hi: nat)
    requires lo <= hi <= |text|
    ensures |Survivors(text, ms, lo, hi)| == Kept(ms, hi) - Kept(ms, lo)
    decreases hi
  {
    if lo < hi {
      SurvivorsLength(text, ms, lo, hi - 1);
    }
  }

  lemma {:induction false} SurvivorsSplit(text: string, ms: seq<Match>, lo: nat, mid: nat, hi: nat)
    requires lo <= mid <= hi <= |text|
    ensures Survivors(text, ms, lo, hi) == Survivors(text, ms, lo, mid) + Survivors(text, ms, mid, hi)
    decreases hi
  {
    if mid < hi {
      SurvivorsSplit(text, ms, lo, mid, hi - 1);
    }
  }

  lemma {:induction false} SurvivorsAll(text: string, ms: seq<Match>, lo: nat, hi: nat)
    requires lo <= hi <= |text| && forall p: nat | lo <= p < hi :: !Removed(ms, p)
    ensures Survivors(text, ms, lo, hi) == text[lo..hi]
    decreases hi
  {
    if lo < hi {
      SurvivorsAll(text, ms, lo, hi - 1);
      assert !Removed(ms, hi - 1);
      SliceSnoc(text, lo, hi);
    }
  }

  lemma SliceSnoc(text: string, lo: nat, hi: nat)
    requires lo < hi <= |text|
    ensures text[lo..hi] == text[lo..hi - 1] + [text[hi - 1]]
  {
  }

  lemma {:induction false} SurvivorsNone(text: string, ms: seq<Match>, lo: nat, hi: nat)
    requires lo <= hi <= |text| && forall p: nat | lo <= p < hi :: Removed(ms, p)
    ensures Survivors(text, ms, lo, hi) == ""
    decreases hi
  {
    if lo < hi {
      SurvivorsNone(text, ms, lo, hi - 1);
      assert Removed(ms, hi - 1);
    }
  }

  /** The image of a range lies within the stripped text. */
  lemma KeptWithin(text: string, ms: seq<Match>, lo: nat, hi: nat)
    requires lo <= hi <= |text|
    ensures 0 <= Kept(ms, lo) <= Kept(ms, hi) <= |Plain(text, ms)| == Kept(ms, |text|)
  {
    KeptMonotone(ms, lo, hi);
    KeptMonotone(ms, hi, |text|);
    SurvivorsLength(text, ms, 0, |text|);
  }

  /** Any range of the text, seen in the stripped text, holds exactly the characters that survive of it. */
  lemma RangeHoldsSurvivors(text: string, ms: seq<Match>, lo: nat, hi: nat)
    requires lo <= hi <= |text|
    ensures 0 <= Kept(ms, lo) <= Kept(ms, hi) <= |Plain(text, ms)| == Kept(ms, |text|)
    ensures Plain(text, ms)[Kept(ms, lo)..Kept(ms, hi)] == Survivors(text, ms, lo, hi)
  {
    KeptWithin(text, ms, lo, hi);
    SurvivorsLength(text, ms, 0, lo);
    SurvivorsLength(text, ms, lo, hi);
    SurvivorsSplit(text, ms, 0, hi, |text|);
    SurvivorsSplit(text, ms, 0, lo, hi);
    MiddleOf(Survivors(text, ms, 0, lo), Survivors(text, ms, lo, hi), Survivors(text, ms, hi, |text|));
  }

  lemma MiddleOf(a: string, b: string, c: string)
    ensures (a + b + c)[|a|..|a| + |b|] == b
  {
  }

  /** Each kept character is found at its mapped position. */
  lemma KeptCharacter(text: string, ms: seq<Match>, i: nat)
    requires i < |text| && !Removed(ms, i)
    ensures Kept(ms, i) < |Plain(text, ms)| && Plain(text, ms)[Kept(ms, i)] == text[i]
  {
    RangeHoldsSurvivors(text, ms, i, i + 1);
    assert Survivors(text, ms, i, i + 1) == Survivors(text, ms, i, i) + [text[i]] == [text[i]];
    assert Kept(ms, i + 1) == Kept(ms, i) + 1;
    assert Plain(text, ms)[Kept(ms, i)] == Plain(text, ms)[Kept(ms, i)..Kept(ms, i + 1)][0];
  }

  /** Between two accepted spans, and inside a captured text, nothing is removed; the markers are. */
  lemma Regions(ms: seq<Match>, i: nat, p: nat, n: nat)
    requires Chain(ms) && AllWellFormed(ms, n) && i < |ms|
    ensures (if i == 0 then 0 else ms[i - 1].me) <= p < ms[i].ms ==> !Removed(ms, p)
    ensures ms[i].ms <= p < ms[i].g1s ==> Removed(ms, p)
    ensures ms[i].g1s <= p < ms[i].g1e ==> !Removed(ms, p)
    ensures ms[i].g1e <= p < ms[i].me ==> Removed(ms, p)
    ensures i == |ms| - 1 && ms[i].me <= p ==> !Removed(ms, p)
  {
    if Removed(ms, p) {
      var k :| 0 <= k < |ms| && RemovedBy(ms[k], p);
      if k < i {
        assert ms[k].me <= ms[i].ms;
        assert k < i - 1 ==> ms[k].me <= ms[i - 1].ms;
      } else if k > i {
        assert ms[i].me <= ms[k].ms;
      }
    }
    assert RemovedBy(ms[i], p) ==> Removed(ms, p);
  }

  lemma PastTheEnd(ms: seq<Match>, n: nat, p: nat)
    requires AllWellFormed(ms, n) && p >= n
    ensures !Removed(ms, p) && Kept(ms, p) == Kept(ms, n) + (p - n)
    decreases p
  {
    if p > n {
      PastTheEnd(ms, n, p - 1);
    }
  }

  /** What one match leaves of the stretch from the end of its predecessor to its own end. */
  lemma MatchLeaves(text: string, ms: seq<Match>, i: nat)
    requires Chain(ms) && AllWellFormed(ms, |text|) && i < |ms|
    ensures var from := if i == 0 then 0 else ms[i - 1].me;
            && from <= ms[i].ms
            && Survivors(text, ms, from, ms[i].ms) == text[from..ms[i].ms]
            && Survivors(text, ms, ms[i].ms, ms[i].g1s) == ""
            && Survivors(text, ms, ms[i].g1s, ms[i].g1e) == text[ms[i].g1s..ms[i].g1e]
            && Survivors(text, ms, ms[i].g1e, ms[i].me) == ""
  {
    var from := if i == 0 then 0 else ms[i - 1].me;
    forall p: nat
      ensures from <= p < ms[i].ms || ms[i].g1s <= p < ms[i].g1e ==> !Removed(ms, p)
      ensures ms[i].ms <= p < ms[i].g1s || ms[i].g1e <= p < ms[i].me ==> Removed(ms, p)
    {
      Regions(ms, i, p, |text|);
    }
    SurvivorsAll(text, ms, from, ms[i].ms);
    SurvivorsNone(text, ms, ms[i].ms, ms[i].g1s);
    SurvivorsAll(text, ms, ms[i].g1s, ms[i].g1e);
    SurvivorsNone(text, ms, ms[i].g1e, ms[i].me);
  }

  /** The inline style of an accepted match selects exactly its captured text. */
  lemma CapturedTextSelected(text: string, ms: seq<Match>, i: nat)
    requires Chain(ms) && AllWellFormed(ms, |text|) && i < |ms|
    ensures Kept(ms, ms[i].g1e) == Kept(ms, ms[i].g1s) + (ms[i].g1e - ms[i].g1s) <= |Plain(text, ms)|
    ensures Plain(text, ms)[Kept(ms, ms[i].g1s)..Kept(ms, ms[i].g1e)] == text[ms[i].g1s..ms[i].g1e]
  {
    MatchLeaves(text, ms, i);
    SurvivorsLength(text, ms, ms[i].g1s, ms[i].g1e);
    RangeHoldsSurvivors(text, ms, ms[i].g1s, ms[i].g1e);
  }

  /** A range clear of every accepted span keeps all its characters. */
  lemma ClearRangeUntouched(text: string, ms: seq<Match>, lo: nat, hi: nat)
    requires lo <= hi <= |text| && AllWellFormed(ms, |text|)
    requires forall i | 0 <= i < |ms| :: !Overlaps(ms[i], (lo, hi))
    ensures Survivors(text, ms, lo, hi) == text[lo..hi]
  {
    forall p: nat | lo <= p < hi
      ensures !Removed(ms, p)
    {
      forall i | 0 <= i < |ms|
        ensures !RemovedBy(ms[i], p)
      {
        assert !Overlaps(ms[i], (lo, hi));
      }
    }
    SurvivorsAll(text, ms, lo, hi);
  }

  // ---------------------------------------------------------------- the removal list

  /** Position and length of one stretch of markers. */
  type Removal = (nat, nat)

  function RemovalsOf(m: Match): seq<Removal>
    requires m.ms <= m.g1s && m.g1e <= m.me
  {
    (if m.g1s > m.ms then [(m.ms, m.g1s - m.ms)] else [])
    + if m.me > m.g1e then [(m.g1e, m.me - m.g1e)] else []
  }

  function Removals(ms: seq<Match>): seq<Removal>
    requires forall i | 0 <= i < |ms| :: ms[i].ms <= ms[i].g1s && ms[i].g1e <= ms[i].me
  {
    if ms == [] then [] else Removals(ms[..|ms| - 1]) + RemovalsOf(ms[|ms| - 1])
  }

  predicate RemovalLe(a: Removal, b: Removal) {
    a.0 < b.0 || (a.0 == b.0 && a.1 <= b.1)
  }

  predicate EndBy(removals: seq<Removal>, limit: nat) {
    forall i | 0 <= i < |removals| :: removals[i].0 < removals[i].0 + removals[i].1 <= limit
  }

  /** The markers of one match, in order and within the match. */
  lemma OwnRemovals(m: Match)
    requires m.ms <= m.g1s < m.g1e <= m.me
    ensures SortedBy(RemovalsOf(m), RemovalLe) && EndBy(RemovalsOf(m), m.me)
    ensures forall i | 0 <= i < |RemovalsOf(m)| :: m.ms <= RemovalsOf(m)[i].0
  {
  }

  lemma AppendEndBy(a: seq<Removal>, b: seq<Removal>, limit: nat, later: nat)
    requires EndBy(a, limit) && EndBy(b, later) && limit <= later
    ensures EndBy(a + b, later)
  {
  }

  lemma AppendSorted(a: seq<Removal>, b: seq<Removal>, limit: nat)
    requires SortedBy(a, RemovalLe) && SortedBy(b, RemovalLe) && EndBy(a, limit)
    requires forall i | 0 <= i < |b| :: limit <= b[i].0
    ensures SortedBy(a + b, RemovalLe)
  {
  }

  function EndOfChain(ms: seq<Match>): nat {
    if ms == [] then 0 else ms[|ms| - 1].me
  }

  /** The removal list comes out in order, so sorting it changes nothing. */
  lemma {:induction false} RemovalsSorted(ms: seq<Match>, n: nat)
    requires Chain(ms) && AllWellFormed(ms, n)
    ensures SortedBy(Removals(ms), RemovalLe) && EndBy(Removals(ms), EndOfChain(ms))
  {
    if ms != [] {
      var init, last := ms[..|ms| - 1], ms[|ms| - 1];
      RemovalsSorted(init, n);
      ChainEnds(ms);
      OwnRemovals(last);
      AppendEndBy(Removals(init), [], EndOfChain(init), last.ms);
      assert Removals(init) + [] == Removals(init);
      AppendSorted(Removals(init), RemovalsOf(last), last.ms);
      AppendEndBy(Removals(init), RemovalsOf(last), last.ms, last.me);
    }
  }

  lemma ChainEnds(ms: seq<Match>)
    requires Chain(ms) && ms != []
    ensures EndOfChain(ms[..|ms| - 1]) <= ms[|ms| - 1].ms
  {
  }

  // ---------------------------------------------------------------- the shift

  /** How much of one removal lies below `pos`. */
  function Below(r: Removal, pos: nat): nat {
    if r.0 >= pos then 0 else if r.1 < pos - r.0 then r.1 else pos - r.0
  }

  function Shift(removals: seq<Removal>, pos: nat): nat {
    if removals == [] then 0
    else Shift(removals[..|removals| - 1], pos) + Below(removals[|removals| - 1], pos)
  }

  lemma {:induction false} ShiftAppend(a: seq<Removal>, b: seq<Removal>, pos: nat)
    ensures Shift(a + b, pos) == Shift(a, pos) + Shift(b, pos)
  {
    if b == [] {
      assert a + b == a;
    } else {
      ShiftAppend(a, b[..|b| - 1], pos);
      assert (a + b)[..|a + b| - 1] == a + b[..|b| - 1];
    }
  }

  /** Removals that start at or past `pos` do not shift it. */
  lemma {:induction false} ShiftOfLater(removals: seq<Removal>, pos: nat)
    requires forall i | 0 <= i < |removals| :: removals[i].0 >= pos
    ensures Shift(removals, pos) == 0
  {
    if removals != [] {
      ShiftOfLater(removals[..|removals| - 1], pos);
    }
  }

  lemma ShiftOfMatch(m: Match, pos: nat)
    requires m.ms <= m.g1s <= m.g1e <= m.me
    ensures Shift(RemovalsOf(m), pos) == Below((m.ms, m.g1s - m.ms), pos) + Below((m.g1e, m.me - m.g1e), pos)
  {
    var a := if m.g1s > m.ms then [(m.ms, m.g1s - m.ms)] else [];
    var b := if m.me > m.g1e then [(m.g1e, m.me - m.g1e)] else [];
    ShiftAppend(a, b, pos);
  }

  lemma BelowStep(r: Removal, p: nat)
    ensures Below(r, p + 1) == Below(r, p) + if r.0 <= p < r.0 + r.1 then 1 else 0
  {
  }

  lemma MatchStep(m: Match, p: nat)
    requires m.ms <= m.g1s <= m.g1e <= m.me
    ensures Shift(RemovalsOf(m), p + 1) == Shift(RemovalsOf(m), p) + if RemovedBy(m, p) then 1 else 0
  {
    ShiftOfMatch(m, p);
    ShiftOfMatch(m, p + 1);
    BelowStep((m.ms, m.g1s - m.ms), p);
    BelowStep((m.g1e, m.me - m.g1e), p);
  }

  /** Moving one position on adds one to the shift exactly when that position is removed. */
  lemma {:induction false} ShiftStep(ms: seq<Match>, p: nat, n: nat)
    requires Chain(ms) && AllWellFormed(ms, n)
    ensures Shift(Removals(ms), p + 1) == Shift(Removals(ms), p) + if Removed(ms, p) then 1 else 0
  {
    if ms != [] {
      var init, last := ms[..|ms| - 1], ms[|ms| - 1];
      ShiftStep(init, p, n);
      ShiftAppend(Removals(init), RemovalsOf(last), p);
      ShiftAppend(Removals(init), RemovalsOf(last), p + 1);
      MatchStep(last, p);
      RemovedInChain(ms, p, n);
    }
  }

  lemma RemovedInChain(ms: seq<Match>, p: nat, n: nat)
    requires Chain(ms) && AllWellFormed(ms, n) && ms != []
    ensures var init, last := ms[..|ms| - 1], ms[|ms| - 1];
            && (Removed(ms, p) <==> Removed(init, p) || RemovedBy(last, p))
            && !(Removed(init, p) && RemovedBy(last, p))
  {
    var init, last := ms[..|ms| - 1], ms[|ms| - 1];
    forall i | 0 <= i < |init|
      ensures RemovedBy(init[i], p) ==> Removed(ms, p) && !RemovedBy(last, p)
    {
      assert ms[i] == init[i] && init[i].me <= last.ms;
    }
    if Removed(ms, p) {
      var i :| 0 <= i < |ms| && RemovedBy(ms[i], p);
      assert i < |init| ==> RemovedBy(init[i], p);
    }
    assert RemovedBy(last, p) ==> Removed(ms, p);
  }

  /** Subtracting the shift from a position counts the kept positions below it. */
  lemma {:induction false} ShiftIsExact(ms: seq<Match>, p: nat, n: nat)
    requires Chain(ms) && AllWellFormed(ms, n)
    ensures Shift(Removals(ms), p) + Kept(ms, p) == p
  {
    if p == 0 {
      ShiftOfLater(Removals(ms), 0);
    } else {
      ShiftIsExact(ms, p - 1, n);
      ShiftStep(ms, p - 1, n);
    }
  }
}
