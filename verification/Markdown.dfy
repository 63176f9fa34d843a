/**
 * The inline phase of the Markdown conversion: choosing which marker pairs to honour, stripping
 * their markers in one pass, and carrying every style over to offsets in the stripped text.
 *
 * The candidate matches of each pattern, and the styles found by the earlier phases, are inputs.
 */
module Markdown {
  import opened Sorting
  import opened Utf16

  /** In the alphabetical order of the style names. */
  datatype Kind = Bold | Italic | Monospace | Strikethrough

  datatype Style = Style(start: nat, len: nat, kind: Kind)

  /** A span from `ms` to `me` whose captured text runs from `g1s` to `g1e`; the rest of it is markers. */
  datatype Match = Match(ms: nat, g1s: nat, g1e: nat, me: nat, kind: Kind)

  datatype Utf16Style = Utf16Style(start: nat, len: nat, kind: Kind)

  predicate WellFormed(m: Match, n: nat) {
    m.ms <= m.g1s < m.g1e <= m.me <= n
  }

  predicate AllWellFormed(ms: seq<Match>, n: nat) {
    forall i | 0 <= i < |ms| :: WellFormed(ms[i], n)
  }

  // ---------------------------------------------------------------- selection

  predicate Overlaps(m: Match, span: (nat, nat)) {
    m.ms < span.1 && m.me > span.0
  }

  predicate OverlapsAny(m: Match, spans: seq<(nat, nat)>) {
    exists i | 0 <= i < |spans| :: Overlaps(m, spans[i])
  }

  function SpanOf(m: Match): (nat, nat) {
    (m.ms, m.me)
  }

  function Spans(ms: seq<Match>): seq<(nat, nat)> {
    seq(|ms|, i requires 0 <= i < |ms| => SpanOf(ms[i]))
  }

  /** The ranges of code found by the earlier phases. */
  function CodeSpans(styles: seq<Style>): seq<(nat, nat)> {
    if styles == [] then []
    else
      var last := styles[|styles| - 1];
      CodeSpans(styles[..|styles| - 1])
      + if last.kind == Monospace then [(last.start, last.start + last.len)] else []
  }

  /** Takes each candidate in turn unless it overlaps code or a candidate taken before. */
  function Select(code: seq<(nat, nat)>, candidates: seq<Match>): seq<Match> {
    if candidates == [] then []
    else
      var taken := Select(code, candidates[..|candidates| - 1]);
      var last := candidates[|candidates| - 1];
      if OverlapsAny(last, code + Spans(taken)) then taken else taken + [last]
  }

  function InPriorityOrder(patterns: seq<seq<Match>>): seq<Match> {
    if patterns == [] then []
    else InPriorityOrder(patterns[..|patterns| - 1]) + patterns[|patterns| - 1]
  }

  predicate MatchLe(a: Match, b: Match) {
    if a.ms != b.ms then a.ms < b.ms
    else if a.me != b.me then a.me < b.me
    else if a.g1s != b.g1s then a.g1s < b.g1s
    else if a.g1e != b.g1e then a.g1e < b.g1e
    else Rank(a.kind) <= Rank(b.kind)
  }

  function Rank(k: Kind): nat {
    match k
    case Bold => 0
    case Italic => 1
    case Monospace => 2
    case Strikethrough => 3
  }

  /** The matches whose markers are stripped, in text order. */
  function Accepted(styles: seq<Style>, patterns: seq<seq<Match>>): seq<Match> {
    Sort(Select(CodeSpans(styles), InPriorityOrder(patterns)), MatchLe)
  }

  // ---------------------------------------------------------------- what stripping leaves

  predicate RemovedBy(m: Match, p: nat) {
    m.ms <= p < m.g1s || m.g1e <= p < m.me
  }

  predicate Removed(ms: seq<Match>, p: nat) {
    exists i | 0 <= i < |ms| :: RemovedBy(ms[i], p)
  }

  /** How many of the positions below `p` are kept; positions past the end of the text count as kept. */
  function Kept(ms: seq<Match>, p: nat): nat {
    if p == 0 then 0 else Kept(ms, p - 1) + if Removed(ms, p - 1) then 0 else 1
  }

  /** The kept characters from `lo` up to `hi`. */
  function Survivors(text: string, ms: seq<Match>, lo: nat, hi: nat): string
    requires lo <= hi <= |text|
  {
    if lo == hi then ""
    else Survivors(text, ms, lo, hi - 1) + if Removed(ms, hi - 1) then "" else [text[hi - 1]]
  }

  function Plain(text: string, ms: seq<Match>): string {
    Survivors(text, ms, 0, |text|)
  }

  // ---------------------------------------------------------------- styles of the stripped text

  function Inline(ms: seq<Match>): seq<Style>
    requires forall i | 0 <= i < |ms| :: ms[i].g1s <= ms[i].g1e
  {
    seq(|ms|, i requires 0 <= i < |ms| => Style(Kept(ms, ms[i].g1s), ms[i].g1e - ms[i].g1s, ms[i].kind))
  }

  /** The style from `ns` to `ne`; nothing if that holds no character. */
  function KeptStyle(ns: nat, ne: nat, kind: Kind): seq<Style> {
    if ne > ns then [Style(ns, ne - ns, kind)] else []
  }

  /** What becomes of an earlier style. */
  function AdjustedStyle(s: Style, ms: seq<Match>): seq<Style> {
    KeptStyle(Kept(ms, s.start), Kept(ms, s.start + s.len), s.kind)
  }

  function AdjustedPrior(styles: seq<Style>, ms: seq<Match>): seq<Style> {
    if styles == [] then []
    else AdjustedPrior(styles[..|styles| - 1], ms) + AdjustedStyle(styles[|styles| - 1], ms)
  }

  predicate StyleLe(a: Style, b: Style) {
    if a.start != b.start then a.start < b.start
    else if a.len != b.len then a.len < b.len
    else Rank(a.kind) <= Rank(b.kind)
  }

  function ToUnits(plain: string, lo: nat, hi: nat, kind: Kind): Utf16Style
    requires lo <= hi <= |plain|
  {
    Utf16Style(Utf16Len(plain[..lo]), Utf16Len(plain[lo..hi]), kind)
  }

  /** Every style that lies within the text, in UTF-16 units. */
  function Emit(plain: string, styles: seq<Style>): seq<Utf16Style> {
    if styles == [] then []
    else
      var last := styles[|styles| - 1];
      Emit(plain, styles[..|styles| - 1])
      + if last.start + last.len > |plain| then []
        else [ToUnits(plain, last.start, last.start + last.len, last.kind)]
  }

  // ---------------------------------------------------------------- accepted matches never touch

  predicate Apart(a: Match, b: Match) {
    a.me <= b.ms || b.me <= a.ms
  }

  predicate AllApart(ms: seq<Match>) {
    forall i, j | 0 <= i < j < |ms| :: Apart(ms[i], ms[j])
  }

  /** In text order, each match ending before the next begins. */
  predicate Chain(ms: seq<Match>) {
    forall i, j | 0 <= i < j < |ms| :: ms[i].me <= ms[j].ms
  }

  lemma TakenIsApart(code: seq<(nat, nat)>, taken: seq<Match>, m: Match, k: nat)
    requires !OverlapsAny(m, code + Spans(taken)) && k < |taken|
    ensures Apart(taken[k], m)
  {
    assert (code + Spans(taken))[|code| + k] == SpanOf(taken[k]);
    assert !Overlaps(m, SpanOf(taken[k]));
  }

  predicate AvoidsAll(ms: seq<Match>, spans: seq<(nat, nat)>) {
    forall i | 0 <= i < |ms| :: !OverlapsAny(ms[i], spans)
  }

  lemma {:induction false} SelectApart(code: seq<(nat, nat)>, candidates: seq<Match>, n: nat)
    requires AllWellFormed(candidates, n)
    ensures AllApart(Select(code, candidates)) && AllWellFormed(Select(code, candidates), n)
    ensures AvoidsAll(Select(code, candidates), code)
  {
    if candidates != [] {
      var init, last := candidates[..|candidates| - 1], candidates[|candidates| - 1];
      SelectApart(code, init, n);
      var taken := Select(code, init);
      if !OverlapsAny(last, code + Spans(taken)) {
        forall k: nat | k < |taken|
          ensures Apart(taken[k], last)
        {
          TakenIsApart(code, taken, last, k);
        }
        AvoidsCode(code, Spans(taken), last);
      }
    }
  }

  lemma AvoidsCode(code: seq<(nat, nat)>, spans: seq<(nat, nat)>, m: Match)
    requires !OverlapsAny(m, code + spans)
    ensures !OverlapsAny(m, code)
  {
    forall i | 0 <= i < |code|
      ensures !Overlaps(m, code[i])
    {
      assert (code + spans)[i] == code[i];
    }
  }

  /** Every candidate left out overlaps code, or a match that was taken and came before it in priority. */
  lemma {:induction false} LeftOutForCause(code: seq<(nat, nat)>, candidates: seq<Match>, k: nat)
    requires k < |candidates|
    ensures candidates[k] in Select(code, candidates)
            || OverlapsAny(candidates[k], code)
            || exists j | 0 <= j < k ::
                 candidates[j] in Select(code, candidates) && Overlaps(candidates[k], SpanOf(candidates[j]))
  {
    var init, last := candidates[..|candidates| - 1], candidates[|candidates| - 1];
    var taken := Select(code, init);
    if k < |init| {
      LeftOutForCause(code, init, k);
      assert forall m :: m in taken ==> m in Select(code, candidates);
      if exists j | 0 <= j < k :: init[j] in taken && Overlaps(init[k], SpanOf(init[j])) {
        var j :| 0 <= j < k && init[j] in taken && Overlaps(init[k], SpanOf(init[j]));
        assert candidates[j] == init[j];
      }
    } else if OverlapsAny(last, code + Spans(taken)) {
      var i :| 0 <= i < |code + Spans(taken)| && Overlaps(last, (code + Spans(taken))[i]);
      if i < |code| {
        assert Overlaps(last, code[i]);
      } else {
        var m := taken[i - |code|];
        SelectFromCandidates(code, init, m);
        var j :| 0 <= j < |init| && init[j] == m;
        assert candidates[j] == m;
      }
    }
  }

  lemma {:induction false} SelectFromCandidates(code: seq<(nat, nat)>, candidates: seq<Match>, m: Match)
    requires m in Select(code, candidates)
    ensures m in candidates
  {
    var init := candidates[..|candidates| - 1];
    if m in Select(code, init) {
      SelectFromCandidates(code, init, m);
    }
  }

  /** Sorting spans that do not touch puts them in a chain. */
  lemma {:induction false} InsertChain(ms: seq<Match>, m: Match, n: nat)
    requires Chain(ms) && AllWellFormed(ms, n) && WellFormed(m, n)
    requires forall i | 0 <= i < |ms| :: Apart(ms[i], m)
    ensures Chain(Insert(ms, m, MatchLe)) && AllWellFormed(Insert(ms, m, MatchLe), n)
  {
    if ms != [] && !MatchLe(ms[|ms| - 1], m) {
      var init, last := ms[..|ms| - 1], ms[|ms| - 1];
      InsertChain(init, m, n);
      forall x | x in Insert(init, m, MatchLe)
        ensures x.me <= last.ms
      {
        InsertMembers(init, m, MatchLe, x);
      }
      ChainSnoc(Insert(init, m, MatchLe), last, n);
    } else {
      forall x | x in ms
        ensures x.me <= m.ms
      {
      }
      ChainSnoc(ms, m, n);
    }
  }

  lemma ChainSnoc(ms: seq<Match>, m: Match, n: nat)
    requires Chain(ms) && AllWellFormed(ms, n) && WellFormed(m, n)
    requires forall x | x in ms :: x.me <= m.ms
    ensures Chain(ms + [m]) && AllWellFormed(ms + [m], n)
  {
  }

  lemma {:induction false} SortChain(ms: seq<Match>, n: nat)
    requires AllApart(ms) && AllWellFormed(ms, n)
    ensures Chain(Sort(ms, MatchLe)) && AllWellFormed(Sort(ms, MatchLe), n)
  {
    if ms != [] {
      var init, last := ms[..|ms| - 1], ms[|ms| - 1];
      SortChain(init, n);
      forall x | x in Sort(init, MatchLe)
        ensures Apart(x, last)
      {
        SortMembers(init, MatchLe, x);
      }
      InsertChain(Sort(init, MatchLe), last, n);
    }
  }

  lemma {:induction false} InOrderWellFormed(patterns: seq<seq<Match>>, n: nat)
    requires forall i | 0 <= i < |patterns| :: AllWellFormed(patterns[i], n)
    ensures AllWellFormed(InPriorityOrder(patterns), n)
  {
    if patterns != [] {
      InOrderWellFormed(patterns[..|patterns| - 1], n);
    }
  }

  predicate Candidates(text: string, patterns: seq<seq<Match>>) {
    forall i | 0 <= i < |patterns| :: AllWellFormed(patterns[i], |text|)
  }

  /** Accepted spans are pairwise disjoint and stay clear of every code range. */
  lemma AcceptedDisjoint(text: string, styles: seq<Style>, patterns: seq<seq<Match>>)
    requires Candidates(text, patterns)
    ensures var ms := Accepted(styles, patterns);
            Chain(ms) && AllWellFormed(ms, |text|) && AvoidsAll(ms, CodeSpans(styles))
  {
    var selected := Select(CodeSpans(styles), InPriorityOrder(patterns));
    InOrderWellFormed(patterns, |text|);
    SelectApart(CodeSpans(styles), InPriorityOrder(patterns), |text|);
    SortChain(selected, |text|);
    forall i | 0 <= i < |Accepted(styles, patterns)|
      ensures !OverlapsAny(Accepted(styles, patterns)[i], CodeSpans(styles))
    {
      SortMembers(selected, MatchLe, Accepted(styles, patterns)[i]);
    }
  }

  // ---------------------------------------------------------------- acceptance by position

  predicate Between(p: nat, lo: nat, hi: nat) {
    lo <= p < hi
  }

  /** Some position of the text lies both in the match and between `lo` and `hi`. */
  predicate SharesPosition(m: Match, lo: nat, hi: nat) {
    exists p: nat | m.ms <= p < m.me :: Between(p, lo, hi)
  }

  /** A range that shares a position with the match, or an empty one strictly inside it. */
  predicate Blocks(m: Match, lo: nat, hi: nat) {
    SharesPosition(m, lo, hi) || (lo == hi && m.ms < lo < m.me)
  }

  lemma OverlapsMeansBlocked(m: Match, lo: nat, hi: nat)
    requires m.ms < m.me && lo <= hi
    ensures Overlaps(m, (lo, hi)) <==> Blocks(m, lo, hi)
  {
    if Overlaps(m, (lo, hi)) && lo < hi {
      var p := if m.ms < lo then lo else m.ms;
      assert m.ms <= p < m.me && Between(p, lo, hi);
    }
  }

  predicate BlockedByCode(styles: seq<Style>, m: Match) {
    exists i | 0 <= i < |styles| ::
      styles[i].kind.Monospace? && Blocks(m, styles[i].start, styles[i].start + styles[i].len)
  }

  /** Another candidate before candidate `k` that was accepted and shares a position with it. */
  predicate BlockedBefore(candidates: seq<Match>, ms: seq<Match>, k: nat)
    requires k < |candidates|
  {
    exists j | 0 <= j < k :: Disputes(candidates[j], candidates[k], ms)
  }

  predicate Disputes(other: Match, m: Match, ms: seq<Match>) {
    other != m && other in ms && SharesPosition(m, other.ms, other.me)
  }

  /** Candidates rank by their pattern first, and by their place among its matches then. */
  predicate Outranks(b: nat, j: nat, a: nat, i: nat) {
    b < a || (b == a && j < i)
  }

  /** An accepted candidate of higher rank shares a position with match `i` of pattern `a`. */
  predicate BlockedByRank(patterns: seq<seq<Match>>, ms: seq<Match>, a: nat, i: nat)
    requires a < |patterns| && i < |patterns[a]|
  {
    exists b, j | 0 <= b < |patterns| && 0 <= j < |patterns[b]| ::
      Outranks(b, j, a, i) && Disputes(patterns[b][j], patterns[a][i], ms)
  }

  lemma {:induction false} CodeBlocks(styles: seq<Style>, m: Match)
    requires m.ms < m.me
    ensures OverlapsAny(m, CodeSpans(styles)) <==> BlockedByCode(styles, m)
  {
    if styles != [] {
      var init, last := styles[..|styles| - 1], styles[|styles| - 1];
      CodeBlocks(init, m);
      OverlapsMeansBlocked(m, last.start, last.start + last.len);
      OverlapsAnySnoc(m, CodeSpans(init), (last.start, last.start + last.len));
      BlockedSnoc(init, last, m);
      assert styles == init + [last];
      assert CodeSpans(init) + [] == CodeSpans(init);
    }
  }

  lemma OverlapsAnySnoc(m: Match, spans: seq<(nat, nat)>, span: (nat, nat))
    ensures OverlapsAny(m, spans + [span]) <==> OverlapsAny(m, spans) || Overlaps(m, span)
  {
    var all := spans + [span];
    assert all[|spans|] == span;
    assert forall i | 0 <= i < |spans| :: all[i] == spans[i];
  }

  lemma BlockedSnoc(init: seq<Style>, last: Style, m: Match)
    ensures BlockedByCode(init + [last], m)
            <==> BlockedByCode(init, m) || (last.kind.Monospace? && Blocks(m, last.start, last.start + last.len))
  {
    var all := init + [last];
    assert all[|init|] == last;
    assert forall i | 0 <= i < |init| :: all[i] == init[i];
  }

  /** Two different accepted matches share no position. */
  lemma AcceptedApart(ms: seq<Match>, a: Match, b: Match)
    requires AllApart(ms) && a in ms && b in ms && a != b
    ensures !SharesPosition(a, b.ms, b.me)
  {
    var i :| 0 <= i < |ms| && ms[i] == a;
    var j :| 0 <= j < |ms| && ms[j] == b;
    assert if i < j then Apart(ms[i], ms[j]) else Apart(ms[j], ms[i]);
  }

  lemma SelectedIff(code: seq<(nat, nat)>, candidates: seq<Match>, n: nat, k: nat)
    requires AllWellFormed(candidates, n) && k < |candidates|
    ensures var selected := Select(code, candidates);
            candidates[k] in selected <==> !OverlapsAny(candidates[k], code) && !BlockedBefore(candidates, selected, k)
  {
    var selected, m := Select(code, candidates), candidates[k];
    SelectApart(code, candidates, n);
    if m in selected {
      var i :| 0 <= i < |selected| && selected[i] == m;
      assert !OverlapsAny(selected[i], code);
      forall j | 0 <= j < k
        ensures !Disputes(candidates[j], m, selected)
      {
        if candidates[j] != m && candidates[j] in selected {
          AcceptedApart(selected, m, candidates[j]);
        }
      }
    } else {
      LeftOutForCause(code, candidates, k);
      if j :| 0 <= j < k && candidates[j] in selected && Overlaps(m, SpanOf(candidates[j])) {
        assert WellFormed(candidates[j], n);
        OverlapsMeansBlocked(m, candidates[j].ms, candidates[j].me);
        assert Disputes(candidates[j], m, selected);
      }
    }
  }

  // ---------------------------------------------------------------- rank

  lemma {:induction false} FlatPosition(patterns: seq<seq<Match>>, a: nat, i: nat) returns (k: nat)
    requires a < |patterns| && i < |patterns[a]|
    ensures k == |InPriorityOrder(patterns[..a])| + i < |InPriorityOrder(patterns)|
    ensures InPriorityOrder(patterns)[k] == patterns[a][i]
    ensures |InPriorityOrder(patterns[..a])| + |patterns[a]| <= |InPriorityOrder(patterns)|
  {
    var n := |patterns| - 1;
    if a == n {
      k := |InPriorityOrder(patterns[..n])| + i;
    } else {
      k := FlatPosition(patterns[..n], a, i);
      assert patterns[..n][..a] == patterns[..a];
    }
  }

  /** The flattened list has nothing in front of pattern `a` but the matches of earlier patterns. */
  lemma {:induction false} FlatPrefix(patterns: seq<seq<Match>>, a: nat)
    requires a <= |patterns|
    ensures InPriorityOrder(patterns[..a]) <= InPriorityOrder(patterns)
  {
    if a == |patterns| {
      assert patterns[..a] == patterns;
    } else {
      var n := |patterns| - 1;
      FlatPrefix(patterns[..n], a);
      assert patterns[..n][..a] == patterns[..a];
    }
  }

  lemma {:induction false} FlatMember(patterns: seq<seq<Match>>, m: Match) returns (b: nat, j: nat)
    requires m in InPriorityOrder(patterns)
    ensures b < |patterns| && j < |patterns[b]| && patterns[b][j] == m
  {
    var n := |patterns| - 1;
    if m in patterns[n] {
      b := n;
      j :| 0 <= j < |patterns[n]| && patterns[n][j] == m;
    } else {
      b, j := FlatMember(patterns[..n], m);
    }
  }

  /** Earlier patterns end before later ones begin. */
  lemma FlatOrder(patterns: seq<seq<Match>>, b: nat, a: nat)
    requires b < a < |patterns|
    ensures |InPriorityOrder(patterns[..b])| + |patterns[b]| <= |InPriorityOrder(patterns[..a])|
  {
    FlatPrefix(patterns[..a], b + 1);
    assert patterns[..a][..b + 1] == patterns[..b + 1];
    assert patterns[..b + 1][..b] == patterns[..b];
  }

  /** What stands before a candidate in the flattened list is what outranks it. */
  lemma BeforeIsRank(patterns: seq<seq<Match>>, ms: seq<Match>, a: nat, i: nat, k: nat)
    requires a < |patterns| && i < |patterns[a]| && k == |InPriorityOrder(patterns[..a])| + i
    ensures k < |InPriorityOrder(patterns)| && InPriorityOrder(patterns)[k] == patterns[a][i]
    ensures BlockedBefore(InPriorityOrder(patterns), ms, k) <==> BlockedByRank(patterns, ms, a, i)
  {
    var candidates, m := InPriorityOrder(patterns), patterns[a][i];
    var at := FlatPosition(patterns, a, i);
    if x :| 0 <= x < k && Disputes(candidates[x], m, ms) {
      RankOf(patterns, ms, a, i, k, x);
    }
    if BlockedByRank(patterns, ms, a, i) {
      var b, j :| 0 <= b < |patterns| && 0 <= j < |patterns[b]|
                  && Outranks(b, j, a, i) && Disputes(patterns[b][j], m, ms);
      var x := FlatPosition(patterns, b, j);
      if b < a {
        FlatOrder(patterns, b, a);
      }
      assert Disputes(candidates[x], m, ms);
    }
  }

  lemma RankOf(patterns: seq<seq<Match>>, ms: seq<Match>, a: nat, i: nat, k: nat, x: nat)
    requires a < |patterns| && i < |patterns[a]| && k == |InPriorityOrder(patterns[..a])| + i && x < k
    requires x < |InPriorityOrder(patterns)| && Disputes(InPriorityOrder(patterns)[x], patterns[a][i], ms)
    ensures BlockedByRank(patterns, ms, a, i)
  {
    var offset := |InPriorityOrder(patterns[..a])|;
    if x < offset {
      FlatPrefix(patterns, a);
      var b, j := FlatMember(patterns[..a], InPriorityOrder(patterns)[x]);
      assert Outranks(b, j, a, i) && Disputes(patterns[b][j], patterns[a][i], ms);
    } else {
      var y := FlatPosition(patterns, a, x - offset);
      assert Outranks(a, x - offset, a, i) && Disputes(patterns[a][x - offset], patterns[a][i], ms);
    }
  }

  lemma SameBlocks(candidates: seq<Match>, a: seq<Match>, b: seq<Match>, k: nat)
    requires k < |candidates| && forall m :: m in a <==> m in b
    ensures BlockedBefore(candidates, a, k) <==> BlockedBefore(candidates, b, k)
  {
    var m := candidates[k];
    assert forall j | 0 <= j < k :: Disputes(candidates[j], m, a) <==> Disputes(candidates[j], m, b);
  }

  /**
   * A candidate is accepted if and only if none of its positions belongs to code or to an accepted candidate that ranks
   * before it, and no empty code range lies strictly inside it.  Spans that merely touch do not disturb each other.
   */
  lemma AcceptedIff(text: string, styles: seq<Style>, patterns: seq<seq<Match>>, a: nat, i: nat)
    requires Candidates(text, patterns) && a < |patterns| && i < |patterns[a]|
    ensures var ms := Accepted(styles, patterns);
            patterns[a][i] in ms <==> !BlockedByCode(styles, patterns[a][i]) && !BlockedByRank(patterns, ms, a, i)
  {
    var candidates := InPriorityOrder(patterns);
    var selected, k := Select(CodeSpans(styles), candidates), |InPriorityOrder(patterns[..a])| + i;
    InOrderWellFormed(patterns, |text|);
    BeforeIsRank(patterns, Accepted(styles, patterns), a, i, k);
    SelectedIff(CodeSpans(styles), candidates, |text|, k);
    CodeBlocks(styles, candidates[k]);
    forall m
      ensures m in selected <==> m in Accepted(styles, patterns)
    {
      SortMembers(selected, MatchLe, m);
    }
    SameBlocks(candidates, selected, Accepted(styles, patterns), k);
  }

  predicate IsCandidate(patterns: seq<seq<Match>>, m: Match) {
    exists a | 0 <= a < |patterns| :: m in patterns[a]
  }

  /** What is accepted is exactly what no code and no accepted candidate of higher rank stands in the way of. */
  predicate ChosenByRank(styles: seq<Style>, patterns: seq<seq<Match>>, ms: seq<Match>) {
    && (forall m | m in ms :: IsCandidate(patterns, m))
    && forall a, i | 0 <= a < |patterns| && 0 <= i < |patterns[a]| ::
         patterns[a][i] in ms <==> !BlockedByCode(styles, patterns[a][i]) && !BlockedByRank(patterns, ms, a, i)
  }

  /** Nothing but candidates is accepted. */
  lemma AcceptedAreCandidates(styles: seq<Style>, patterns: seq<seq<Match>>, m: Match)
    requires m in Accepted(styles, patterns)
    ensures IsCandidate(patterns, m)
  {
    var candidates := InPriorityOrder(patterns);
    SortMembers(Select(CodeSpans(styles), candidates), MatchLe, m);
    SelectFromCandidates(CodeSpans(styles), candidates, m);
    var b, j := FlatMember(patterns, m);
  }

  lemma AcceptedByRank(text: string, styles: seq<Style>, patterns: seq<seq<Match>>)
    requires Candidates(text, patterns)
    ensures ChosenByRank(styles, patterns, Accepted(styles, patterns))
  {
    forall m | m in Accepted(styles, patterns)
      ensures IsCandidate(patterns, m)
    {
      AcceptedAreCandidates(styles, patterns, m);
    }
    forall a, i | 0 <= a < |patterns| && 0 <= i < |patterns[a]|
      ensures patterns[a][i] in Accepted(styles, patterns)
              <==> && !BlockedByCode(styles, patterns[a][i])
                   && !BlockedByRank(patterns, Accepted(styles, patterns), a, i)
    {
      AcceptedIff(text, styles, patterns, a, i);
    }
  }

  /** A candidate that shares no position with code or with another candidate of higher rank is accepted. */
  lemma UndisputedAccepted(text: string, styles: seq<Style>, patterns: seq<seq<Match>>, a: nat, i: nat)
    requires Candidates(text, patterns) && a < |patterns| && i < |patterns[a]|
    requires !BlockedByCode(styles, patterns[a][i])
    requires forall b, j | 0 <= b < |patterns| && 0 <= j < |patterns[b]| && Outranks(b, j, a, i) ::
               !SharesPosition(patterns[a][i], patterns[b][j].ms, patterns[b][j].me)
    ensures patterns[a][i] in Accepted(styles, patterns)
  {
    AcceptedIff(text, styles, patterns, a, i);
  }
}
