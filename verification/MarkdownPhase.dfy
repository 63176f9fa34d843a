/** The inline phase as it runs, and what its output promises. */
module MarkdownPhase {
  import opened Sorting
  import opened Utf16
  import opened Markdown
  import opened MarkdownStrip

  // ---------------------------------------------------------------- the loops

  method CollectCode(styles: seq<Style>) returns (occupied: seq<(nat, nat)>)
    ensures occupied == CodeSpans(styles)
  {
    occupied := [];
    for i := 0 to |styles|
      invariant occupied == CodeSpans(styles[..i])
    {
      assert styles[..i + 1][..i] == styles[..i];
      if styles[i].kind == Monospace {
        occupied := occupied + [(styles[i].start, styles[i].start + styles[i].len)];
      }
    }
    assert styles[..|styles|] == styles;
  }

  lemma InOrderSnoc(patterns: seq<seq<Match>>, i: nat)
    requires i < |patterns|
    ensures InPriorityOrder(patterns[..i + 1]) == InPriorityOrder(patterns[..i]) + patterns[i]
  {
    assert patterns[..i + 1][..i] == patterns[..i];
  }

  lemma SelectSnoc(code: seq<(nat, nat)>, before: seq<Match>, found: seq<Match>, j: nat)
    requires j < |found|
    ensures var taken := Select(code, before + found[..j]);
            Select(code, before + found[..j + 1])
            == if OverlapsAny(found[j], code + Spans(taken)) then taken else taken + [found[j]]
  {
    var all := before + found[..j + 1];
    assert all[..|all| - 1] == before + found[..j];
  }

  /** The two nested loops over patterns and their matches. */
  method SelectMatches(styles: seq<Style>, patterns: seq<seq<Match>>) returns (allMatches: seq<Match>)
    ensures allMatches == Select(CodeSpans(styles), InPriorityOrder(patterns))
  {
    allMatches := [];
    var occupied := CollectCode(styles);
    ghost var code := CodeSpans(styles);
    for i := 0 to |patterns|
      invariant allMatches == Select(code, InPriorityOrder(patterns[..i]))
      invariant occupied == code + Spans(allMatches)
    {
      ghost var before := InPriorityOrder(patterns[..i]);
      InOrderSnoc(patterns, i);
      assert before + patterns[i][..0] == before;
      for j := 0 to |patterns[i]|
        invariant allMatches == Select(code, before + patterns[i][..j])
        invariant occupied == code + Spans(allMatches)
      {
        SelectSnoc(code, before, patterns[i], j);
        var m := patterns[i][j];
        if !OverlapsAny(m, occupied) {
          SpansSnoc(code, allMatches, m);
          allMatches := allMatches + [m];
          occupied := occupied + [SpanOf(m)];
        }
      }
      assert patterns[i][..|patterns[i]|] == patterns[i];
    }
    assert patterns[..|patterns|] == patterns;
  }

  lemma SpansSnoc(code: seq<(nat, nat)>, ms: seq<Match>, m: Match)
    ensures code + Spans(ms + [m]) == code + Spans(ms) + [SpanOf(m)]
  {
    assert Spans(ms + [m]) == Spans(ms) + [SpanOf(m)];
  }

  lemma RemovalsNext(ms: seq<Match>, i: nat, n: nat)
    requires AllWellFormed(ms, n) && i < |ms|
    ensures Removals(ms[..i + 1]) == Removals(ms[..i]) + RemovalsOf(ms[i])
  {
    assert ms[..i + 1][..i] == ms[..i];
  }

  lemma AppendRemovals(removals: seq<Removal>, m: Match)
    requires m.ms <= m.g1s && m.g1e <= m.me
    ensures var more := if m.g1s > m.ms then removals + [(m.ms, m.g1s - m.ms)] else removals;
            (if m.me > m.g1e then more + [(m.g1e, m.me - m.g1e)] else more) == removals + RemovalsOf(m)
  {
  }

  method BuildRemovals(ms: seq<Match>, ghost n: nat) returns (removals: seq<Removal>)
    requires Chain(ms) && AllWellFormed(ms, n)
    ensures removals == Removals(ms) && SortedBy(removals, RemovalLe)
  {
    removals := [];
    for i := 0 to |ms|
      invariant removals == Removals(ms[..i])
    {
      RemovalsNext(ms, i, n);
      var m := ms[i];
      AppendRemovals(removals, m);
      if m.g1s > m.ms {
        removals := removals + [(m.ms, m.g1s - m.ms)];
      }
      if m.me > m.g1e {
        removals := removals + [(m.g1e, m.me - m.g1e)];
      }
    }
    assert ms[..|ms|] == ms;
    RemovalsSorted(ms, n);
    SortIdentity(removals, RemovalLe);
    removals := Sort(removals, RemovalLe);
  }

  lemma ShiftStops(removals: seq<Removal>, i: nat, pos: nat)
    requires SortedBy(removals, RemovalLe) && i <= |removals|
    requires i < |removals| ==> removals[i].0 >= pos
    ensures Shift(removals, pos) == Shift(removals[..i], pos)
  {
    ShiftOfLater(removals[i..], pos);
    ShiftAppend(removals[..i], removals[i..], pos);
    assert removals == removals[..i] + removals[i..];
  }

  lemma ShiftNext(removals: seq<Removal>, i: nat, pos: nat)
    requires i < |removals|
    ensures Shift(removals[..i + 1], pos) == Shift(removals[..i], pos) + Below(removals[i], pos)
  {
    assert removals[..i + 1][..i] == removals[..i];
  }

  /** The loop of `_adj`, which stops at the first removal that does not lie below `pos`. */
  method SumShift(removals: seq<Removal>, pos: nat) returns (shift: nat)
    requires SortedBy(removals, RemovalLe)
    ensures shift == Shift(removals, pos)
  {
    shift := 0;
    var i := 0;
    while i < |removals|
      invariant i <= |removals|
      invariant shift == Shift(removals[..i], pos)
    {
      ShiftNext(removals, i, pos);
      var (rp, rl) := removals[i];
      if rp < pos {
        shift := shift + if rl < pos - rp then rl else pos - rp;
      } else {
        break;
      }
      i := i + 1;
    }
    ShiftStops(removals, i, pos);
  }

  /** The number of kept positions below `pos`, computed from the removal list. */
  method Adj(removals: seq<Removal>, pos: nat, ghost ms: seq<Match>, ghost n: nat) returns (adjusted: nat)
    requires Chain(ms) && AllWellFormed(ms, n)
    requires removals == Removals(ms) && SortedBy(removals, RemovalLe)
    ensures adjusted == Kept(ms, pos)
  {
    var shift := SumShift(removals, pos);
    ShiftIsExact(ms, pos, n);
    return pos - shift;
  }

  method AdjustPrior(styles: seq<Style>, removals: seq<Removal>, ghost ms: seq<Match>, ghost n: nat)
    returns (adjusted: seq<Style>)
    requires Chain(ms) && AllWellFormed(ms, n)
    requires removals == Removals(ms) && SortedBy(removals, RemovalLe)
    ensures adjusted == AdjustedPrior(styles, ms)
  {
    adjusted := [];
    for i := 0 to |styles|
      invariant adjusted == AdjustedPrior(styles[..i], ms)
    {
      assert styles[..i + 1][..i] == styles[..i];
      var ns := Adj(removals, styles[i].start, ms, n);
      var ne := Adj(removals, styles[i].start + styles[i].len, ms, n);
      if ne > ns {
        adjusted := adjusted + [Style(ns, ne - ns, styles[i].kind)];
      }
    }
    assert styles[..|styles|] == styles;
  }

  lemma PrefixGrows(text: string, ms: seq<Match>, lo: nat, hi: nat, part: string)
    requires lo <= hi <= |text| && Survivors(text, ms, lo, hi) == part
    ensures Survivors(text, ms, 0, hi) == Survivors(text, ms, 0, lo) + part
    ensures part == "" ==> Survivors(text, ms, 0, hi) == Survivors(text, ms, 0, lo)
  {
    SurvivorsSplit(text, ms, 0, lo, hi);
  }

  /** The survivors up to the end of match `i`, in terms of those up to the end of its predecessor. */
  lemma StripStep(text: string, ms: seq<Match>, i: nat, from: nat)
    requires Chain(ms) && AllWellFormed(ms, |text|) && i < |ms| && from == if i == 0 then 0 else ms[i - 1].me
    ensures from <= ms[i].ms
    ensures Survivors(text, ms, 0, ms[i].me)
         == Survivors(text, ms, 0, from) + text[from..ms[i].ms] + text[ms[i].g1s..ms[i].g1e]
    ensures |Survivors(text, ms, 0, from) + text[from..ms[i].ms]| == Kept(ms, ms[i].g1s)
  {
    MatchLeaves(text, ms, i);
    PrefixGrows(text, ms, from, ms[i].ms, text[from..ms[i].ms]);
    PrefixGrows(text, ms, ms[i].ms, ms[i].g1s, "");
    PrefixGrows(text, ms, ms[i].g1s, ms[i].g1e, text[ms[i].g1s..ms[i].g1e]);
    PrefixGrows(text, ms, ms[i].g1e, ms[i].me, "");
    SurvivorsLength(text, ms, 0, ms[i].g1s);
  }

  lemma StripTail(text: string, ms: seq<Match>, from: nat)
    requires Chain(ms) && AllWellFormed(ms, |text|) && from == if ms == [] then 0 else ms[|ms| - 1].me
    ensures from <= |text|
    ensures Plain(text, ms) == Survivors(text, ms, 0, from) + text[from..]
  {
    forall p: nat | from <= p < |text|
      ensures !Removed(ms, p)
    {
      if ms != [] {
        Regions(ms, |ms| - 1, p, |text|);
      }
    }
    SurvivorsAll(text, ms, from, |text|);
    PrefixGrows(text, ms, from, |text|, text[from..]);
  }

  lemma PrefixSnoc<T>(xs: seq<T>, i: nat)
    requires i < |xs|
    ensures xs[..i + 1] == xs[..i] + [xs[i]]
  {
  }

  /** Strips all markers in one pass and records where each captured text lands. */
  method StripMarkers(text: string, ms: seq<Match>) returns (result: string, inline: seq<Style>)
    requires Chain(ms) && AllWellFormed(ms, |text|)
    ensures result == Plain(text, ms) && inline == Inline(ms)
  {
    result := "";
    inline := [];
    var lastEnd := 0;
    for i := 0 to |ms|
      invariant lastEnd == (if i == 0 then 0 else ms[i - 1].me) <= |text|
      invariant result == Survivors(text, ms, 0, lastEnd)
      invariant inline == Inline(ms)[..i]
    {
      StripStep(text, ms, i, lastEnd);
      var m := ms[i];
      result := result + text[lastEnd..m.ms];
      var pos := |result|;
      var inner := text[m.g1s..m.g1e];
      result := result + inner;
      PrefixSnoc(Inline(ms), i);
      inline := inline + [Style(pos, |inner|, m.kind)];
      lastEnd := m.me;
    }
    StripTail(text, ms, lastEnd);
    result := result + text[lastEnd..];
  }

  method EmitStyles(plain: string, styles: seq<Style>) returns (out: seq<Utf16Style>)
    ensures out == Emit(plain, styles)
  {
    out := [];
    for i := 0 to |styles|
      invariant out == Emit(plain, styles[..i])
    {
      assert styles[..i + 1][..i] == styles[..i];
      var lo, hi := styles[i].start, styles[i].start + styles[i].len;
      if hi <= |plain| {
        out := out + [ToUnits(plain, lo, hi, styles[i].kind)];
      }
    }
    assert styles[..|styles|] == styles;
  }

  /**
   * Phase 3.  It honours the candidates that nothing of higher rank stands in the way of; every style it emits is the
   * unit range of a captured text or of the survivors of an earlier style, each of them once.
   */
  method ConvertInline(text: string, styles: seq<Style>, patterns: seq<seq<Match>>)
    returns (plain: string, out: seq<Utf16Style>)
    requires Candidates(text, patterns)
    ensures AllWellFormed(Accepted(styles, patterns), |text|)
    ensures ChosenByRank(styles, patterns, Accepted(styles, patterns))
    ensures plain == Plain(text, Accepted(styles, patterns))
    ensures out == Output(text, styles, Accepted(styles, patterns))
    ensures forall o :: o in out <==> Sourced(text, styles, Accepted(styles, patterns), o)
    ensures multiset(out) == multiset(LivingOutputs(text, styles, Accepted(styles, patterns)))
                           + multiset(MatchOutputs(text, Accepted(styles, patterns)))
    ensures Ascending(out)
  {
    AcceptedDisjoint(text, styles, patterns);
    AcceptedByRank(text, styles, patterns);
    var selected := SelectMatches(styles, patterns);
    var ms := Sort(selected, MatchLe);
    var removals := BuildRemovals(ms, |text|);
    var prior := AdjustPrior(styles, removals, ms, |text|);
    var inline;
    plain, inline := StripMarkers(text, ms);
    out := EmitStyles(plain, Sort(prior + inline, StyleLe));
    forall o
      ensures o in out <==> Sourced(text, styles, ms, o)
    {
      OutputExactly(text, styles, ms, o);
    }
    OutputOnce(text, styles, ms);
    OutputAscending(text, styles, ms);
  }

  // ---------------------------------------------------------------- what the output means

  function Output(text: string, styles: seq<Style>, ms: seq<Match>): seq<Utf16Style>
    requires AllWellFormed(ms, |text|)
  {
    Emit(Plain(text, ms), Sort(AdjustedPrior(styles, ms) + Inline(ms), StyleLe))
  }

  /** The style that selects, in the stripped text, what survives of a range of the original. */
  function RangeOutput(text: string, ms: seq<Match>, lo: nat, hi: nat, kind: Kind): Utf16Style
    requires lo <= hi <= |text|
  {
    KeptWithin(text, ms, lo, hi);
    ToUnits(Plain(text, ms), Kept(ms, lo), Kept(ms, hi), kind)
  }

  /** Its offset and length decode to exactly those survivors and never cut a surrogate pair. */
  lemma RangeOutputSelects(text: string, ms: seq<Match>, lo: nat, hi: nat, kind: Kind)
    requires lo <= hi <= |text|
    ensures var o := RangeOutput(text, ms, lo, hi, kind);
            o.kind == kind && Selects(Encode(Plain(text, ms)), o.start, o.len, Survivors(text, ms, lo, hi))
  {
    RangeHoldsSurvivors(text, ms, lo, hi);
    RangeSelects(Plain(text, ms), Kept(ms, lo), Kept(ms, hi));
  }

  /** An earlier style that still has something to style: in bounds, with a surviving character. */
  predicate Lives(text: string, ms: seq<Match>, s: Style) {
    s.start + s.len <= |text| && Survivors(text, ms, s.start, s.start + s.len) != ""
  }

  predicate OfMatch(text: string, m: Match, ms: seq<Match>, o: Utf16Style)
    requires WellFormed(m, |text|)
  {
    o == RangeOutput(text, ms, m.g1s, m.g1e, m.kind)
  }

  predicate OfPrior(text: string, s: Style, ms: seq<Match>, o: Utf16Style) {
    Lives(text, ms, s) && o == RangeOutput(text, ms, s.start, s.start + s.len, s.kind)
  }

  /** `o` is the style of an accepted match, or of an earlier style that lives on. */
  predicate Sourced(text: string, styles: seq<Style>, ms: seq<Match>, o: Utf16Style)
    requires AllWellFormed(ms, |text|)
  {
    || (exists i | 0 <= i < |ms| :: OfMatch(text, ms[i], ms, o))
    || (exists i | 0 <= i < |styles| :: OfPrior(text, styles[i], ms, o))
  }

  /** The emitted form of one style of the stripped text, if it lies within it. */
  predicate Emits(plain: string, s: Style, o: Utf16Style) {
    s.start + s.len <= |plain| && o == ToUnits(plain, s.start, s.start + s.len, s.kind)
  }

  /** What an earlier style becomes, if anything of it is kept. */
  predicate AdjustsTo(s: Style, ms: seq<Match>, x: Style) {
    var ns, ne := Kept(ms, s.start), Kept(ms, s.start + s.len);
    ne > ns && x == Style(ns, ne - ns, s.kind)
  }

  lemma {:induction false} EmitMembers(plain: string, styles: seq<Style>, o: Utf16Style)
    ensures o in Emit(plain, styles) <==> exists x | x in styles :: Emits(plain, x, o)
  {
    if styles != [] {
      var init, last := styles[..|styles| - 1], styles[|styles| - 1];
      EmitMembers(plain, init, o);
      assert forall x :: x in styles <==> x in init || x == last;
      assert o in Emit(plain, styles) <==> o in Emit(plain, init) || Emits(plain, last, o);
    }
  }

  lemma {:induction false} AdjustedMembers(styles: seq<Style>, ms: seq<Match>, x: Style)
    ensures x in AdjustedPrior(styles, ms) <==> exists s | s in styles :: AdjustsTo(s, ms, x)
  {
    if styles != [] {
      var init, last := styles[..|styles| - 1], styles[|styles| - 1];
      AdjustedMembers(init, ms, x);
      assert forall s :: s in styles <==> s in init || s == last;
      assert x in AdjustedPrior(styles, ms) <==> x in AdjustedPrior(init, ms) || AdjustsTo(last, ms, x);
    }
  }

  /** An earlier style turns into at most one style of the stripped text. */
  lemma AdjustsToOne(s: Style, ms: seq<Match>, plain: string, o: Utf16Style)
    ensures (exists x :: AdjustsTo(s, ms, x) && Emits(plain, x, o)) <==>
              var ns, ne := Kept(ms, s.start), Kept(ms, s.start + s.len);
              ns < ne && Emits(plain, Style(ns, ne - ns, s.kind), o)
  {
    var ns, ne := Kept(ms, s.start), Kept(ms, s.start + s.len);
    if ns < ne {
      assert AdjustsTo(s, ms, Style(ns, ne - ns, s.kind));
    }
  }

  lemma LivesIff(text: string, ms: seq<Match>, s: Style)
    requires s.start + s.len <= |text|
    ensures Lives(text, ms, s) <==> Kept(ms, s.start) < Kept(ms, s.start + s.len)
  {
    SurvivorsLength(text, ms, s.start, s.start + s.len);
  }

  lemma PriorWithin(text: string, ms: seq<Match>, s: Style, o: Utf16Style)
    requires s.start + s.len <= |text|
    ensures OfPrior(text, s, ms, o) <==>
              var ns, ne := Kept(ms, s.start), Kept(ms, s.start + s.len);
              ns < ne && Emits(Plain(text, ms), Style(ns, ne - ns, s.kind), o)
  {
    LivesIff(text, ms, s);
    EmitsKept(text, ms, s.start, s.start + s.len, s.kind, o);
  }

  lemma RangeOutputUnits(text: string, ms: seq<Match>, lo: nat, hi: nat, kind: Kind, plain: string, ns: nat, ne: nat)
    requires lo <= hi <= |text| && plain == Plain(text, ms) && ns == Kept(ms, lo) && ne == Kept(ms, hi)
    ensures ns <= ne <= |plain| && RangeOutput(text, ms, lo, hi, kind) == ToUnits(plain, ns, ne, kind)
  {
    KeptWithin(text, ms, lo, hi);
  }

  lemma EmitsKept(text: string, ms: seq<Match>, lo: nat, hi: nat, kind: Kind, o: Utf16Style)
    requires lo <= hi <= |text|
    ensures Kept(ms, lo) <= Kept(ms, hi)
    ensures Emits(Plain(text, ms), Style(Kept(ms, lo), Kept(ms, hi) - Kept(ms, lo), kind), o)
            <==> o == RangeOutput(text, ms, lo, hi, kind)
  {
    RangeOutputUnits(text, ms, lo, hi, kind, Plain(text, ms), Kept(ms, lo), Kept(ms, hi));
    EmitsRange(Plain(text, ms), Kept(ms, lo), Kept(ms, hi), kind, o);
  }

  lemma EmitsRange(plain: string, lo: nat, hi: nat, kind: Kind, o: Utf16Style)
    requires lo <= hi <= |plain|
    ensures Emits(plain, Style(lo, hi - lo, kind), o) <==> o == ToUnits(plain, lo, hi, kind)
  {
  }

  lemma PriorBeyond(text: string, ms: seq<Match>, s: Style, o: Utf16Style)
    requires AllWellFormed(ms, |text|) && s.start + s.len > |text|
    ensures var ns, ne := Kept(ms, s.start), Kept(ms, s.start + s.len);
            ns < ne ==> !Emits(Plain(text, ms), Style(ns, ne - ns, s.kind), o)
  {
    SurvivorsLength(text, ms, 0, |text|);
    PastTheEnd(ms, |text|, s.start + s.len);
  }

  /** The safety check at the end drops exactly the earlier styles that reach past the text. */
  lemma AdjustedInBounds(text: string, ms: seq<Match>, s: Style, o: Utf16Style)
    requires AllWellFormed(ms, |text|)
    ensures OfPrior(text, s, ms, o) <==> exists x :: AdjustsTo(s, ms, x) && Emits(Plain(text, ms), x, o)
  {
    AdjustsToOne(s, ms, Plain(text, ms), o);
    if s.start + s.len <= |text| {
      PriorWithin(text, ms, s, o);
    } else {
      PriorBeyond(text, ms, s, o);
    }
  }

  lemma InlineEmits(text: string, ms: seq<Match>, i: nat, o: Utf16Style)
    requires Chain(ms) && AllWellFormed(ms, |text|) && i < |ms|
    ensures OfMatch(text, ms[i], ms, o) <==> Emits(Plain(text, ms), Inline(ms)[i], o)
  {
    CapturedTextSelected(text, ms, i);
  }

  lemma SortedUnion(a: seq<Style>, b: seq<Style>, x: Style)
    ensures x in Sort(a + b, StyleLe) <==> x in a || x in b
  {
    SortMembers(a + b, StyleLe, x);
  }

  /** A style is emitted if and only if an accepted match or a living earlier style accounts for it. */
  lemma OutputExactly(text: string, styles: seq<Style>, ms: seq<Match>, o: Utf16Style)
    requires Chain(ms) && AllWellFormed(ms, |text|)
    ensures o in Output(text, styles, ms) <==> Sourced(text, styles, ms, o)
  {
    var plain, prior, inline := Plain(text, ms), AdjustedPrior(styles, ms), Inline(ms);
    EmitMembers(plain, Sort(prior + inline, StyleLe), o);
    if o in Output(text, styles, ms) {
      var x :| x in Sort(prior + inline, StyleLe) && Emits(plain, x, o);
      SortedUnion(prior, inline, x);
      EmittedIsSourced(text, styles, ms, x, o);
    }
    if Sourced(text, styles, ms, o) {
      var x := SourcedIsEmitted(text, styles, ms, o);
      SortedUnion(prior, inline, x);
    }
  }

  lemma EmittedIsSourced(text: string, styles: seq<Style>, ms: seq<Match>, x: Style, o: Utf16Style)
    requires Chain(ms) && AllWellFormed(ms, |text|) && Emits(Plain(text, ms), x, o)
    requires x in AdjustedPrior(styles, ms) || x in Inline(ms)
    ensures Sourced(text, styles, ms, o)
  {
    if x in Inline(ms) {
      var i :| 0 <= i < |ms| && Inline(ms)[i] == x;
      InlineEmits(text, ms, i, o);
    } else {
      AdjustedMembers(styles, ms, x);
      var s :| s in styles && AdjustsTo(s, ms, x);
      AdjustedInBounds(text, ms, s, o);
      var i :| 0 <= i < |styles| && styles[i] == s;
      assert OfPrior(text, styles[i], ms, o);
    }
  }

  lemma SourcedIsEmitted(text: string, styles: seq<Style>, ms: seq<Match>, o: Utf16Style) returns (x: Style)
    requires Chain(ms) && AllWellFormed(ms, |text|) && Sourced(text, styles, ms, o)
    ensures Emits(Plain(text, ms), x, o) && (x in AdjustedPrior(styles, ms) || x in Inline(ms))
  {
    if i :| 0 <= i < |ms| && OfMatch(text, ms[i], ms, o) {
      InlineEmits(text, ms, i, o);
      x := Inline(ms)[i];
    } else {
      var i :| 0 <= i < |styles| && OfPrior(text, styles[i], ms, o);
      AdjustedInBounds(text, ms, styles[i], o);
      x :| AdjustsTo(styles[i], ms, x) && Emits(Plain(text, ms), x, o);
      AdjustedMembers(styles, ms, x);
    }
  }

  /** The style of an accepted match decodes to exactly its captured text. */
  lemma MatchStyleSelects(text: string, styles: seq<Style>, patterns: seq<seq<Match>>, i: nat)
    requires Candidates(text, patterns) && i < |Accepted(styles, patterns)|
    ensures var ms := Accepted(styles, patterns);
            && AllWellFormed(ms, |text|)
            && var o := RangeOutput(text, ms, ms[i].g1s, ms[i].g1e, ms[i].kind);
               && o in Output(text, styles, ms)
               && Selects(Encode(Plain(text, ms)), o.start, o.len, text[ms[i].g1s..ms[i].g1e])
  {
    var ms := Accepted(styles, patterns);
    AcceptedDisjoint(text, styles, patterns);
    MatchLeaves(text, ms, i);
    var o := RangeOutput(text, ms, ms[i].g1s, ms[i].g1e, ms[i].kind);
    RangeOutputSelects(text, ms, ms[i].g1s, ms[i].g1e, ms[i].kind);
    assert OfMatch(text, ms[i], ms, o);
    OutputExactly(text, styles, ms, o);
  }

  lemma {:induction false} CodeSpanOf(styles: seq<Style>, lo: nat, hi: nat)
    requires lo <= hi && Style(lo, hi - lo, Monospace) in styles
    ensures (lo, hi) in CodeSpans(styles)
  {
    var init, last := styles[..|styles| - 1], styles[|styles| - 1];
    if last != Style(lo, hi - lo, Monospace) {
      CodeSpanOf(init, lo, hi);
    }
  }

  lemma AvoidsMember(m: Match, spans: seq<(nat, nat)>, span: (nat, nat))
    requires !OverlapsAny(m, spans) && span in spans
    ensures !Overlaps(m, span)
  {
    var j :| 0 <= j < |spans| && spans[j] == span;
    assert !Overlaps(m, spans[j]);
  }

  lemma SpanSurvives(text: string, ms: seq<Match>, spans: seq<(nat, nat)>, lo: nat, hi: nat)
    requires AllWellFormed(ms, |text|) && AvoidsAll(ms, spans) && (lo, hi) in spans && lo <= hi <= |text|
    ensures Survivors(text, ms, lo, hi) == text[lo..hi]
  {
    forall i | 0 <= i < |ms|
      ensures !Overlaps(ms[i], (lo, hi))
    {
      AvoidsMember(ms[i], spans, (lo, hi));
    }
    ClearRangeUntouched(text, ms, lo, hi);
  }

  lemma PriorOf(text: string, ms: seq<Match>, lo: nat, hi: nat, kind: Kind)
    requires lo <= hi <= |text| && Survivors(text, ms, lo, hi) != ""
    ensures OfPrior(text, Style(lo, hi - lo, kind), ms, RangeOutput(text, ms, lo, hi, kind))
  {
    assert lo + (hi - lo) == hi;
  }

  lemma PriorSourced(text: string, styles: seq<Style>, ms: seq<Match>, s: Style, o: Utf16Style)
    requires AllWellFormed(ms, |text|) && s in styles && OfPrior(text, s, ms, o)
    ensures Sourced(text, styles, ms, o)
  {
    var k :| 0 <= k < |styles| && styles[k] == s;
    assert OfPrior(text, styles[k], ms, o);
  }

  /** An earlier style of which something survives is emitted. */
  lemma SurvivorEmitted(text: string, styles: seq<Style>, ms: seq<Match>, lo: nat, hi: nat, kind: Kind)
    requires Chain(ms) && AllWellFormed(ms, |text|) && lo < hi <= |text| && Style(lo, hi - lo, kind) in styles
    requires Survivors(text, ms, lo, hi) != ""
    ensures RangeOutput(text, ms, lo, hi, kind) in Output(text, styles, ms)
  {
    PriorOf(text, ms, lo, hi, kind);
    PriorSourced(text, styles, ms, Style(lo, hi - lo, kind), RangeOutput(text, ms, lo, hi, kind));
    OutputExactly(text, styles, ms, RangeOutput(text, ms, lo, hi, kind));
  }

  /** Where a range survives as `part`, its style selects `part`. */
  lemma PartSelected(text: string, ms: seq<Match>, lo: nat, hi: nat, kind: Kind, part: string)
    requires lo <= hi <= |text| && Survivors(text, ms, lo, hi) == part
    ensures var o := RangeOutput(text, ms, lo, hi, kind); Selects(Encode(Plain(text, ms)), o.start, o.len, part)
  {
    RangeOutputSelects(text, ms, lo, hi, kind);
  }

  /** A range that survives whole, and a style in the output that selects it. */
  predicate KeptVerbatim(text: string, styles: seq<Style>, ms: seq<Match>, lo: nat, hi: nat, kind: Kind)
    requires lo <= hi <= |text| && AllWellFormed(ms, |text|)
  {
    && Survivors(text, ms, lo, hi) == text[lo..hi]
    && var o := RangeOutput(text, ms, lo, hi, kind);
       o in Output(text, styles, ms) && Selects(Encode(Plain(text, ms)), o.start, o.len, text[lo..hi])
  }

  lemma WholeStyleKept(text: string, styles: seq<Style>, ms: seq<Match>, lo: nat, hi: nat, kind: Kind)
    requires Chain(ms) && AllWellFormed(ms, |text|) && lo < hi <= |text| && Style(lo, hi - lo, kind) in styles
    requires Survivors(text, ms, lo, hi) == text[lo..hi]
    ensures KeptVerbatim(text, styles, ms, lo, hi, kind)
  {
    SurvivorEmitted(text, styles, ms, lo, hi, kind);
    PartSelected(text, ms, lo, hi, kind, text[lo..hi]);
  }

  /** A code range handed over by the earlier phases keeps every character, markers included, and its style. */
  lemma CodeKeptVerbatim(text: string, styles: seq<Style>, patterns: seq<seq<Match>>, lo: nat, hi: nat)
    requires Candidates(text, patterns) && lo < hi <= |text| && Style(lo, hi - lo, Monospace) in styles
    ensures AllWellFormed(Accepted(styles, patterns), |text|)
    ensures KeptVerbatim(text, styles, Accepted(styles, patterns), lo, hi, Monospace)
  {
    AcceptedDisjoint(text, styles, patterns);
    CodeSpanOf(styles, lo, hi);
    SpanSurvives(text, Accepted(styles, patterns), CodeSpans(styles), lo, hi);
    WholeStyleKept(text, styles, Accepted(styles, patterns), lo, hi, Monospace);
  }

  // ---------------------------------------------------------------- the order of the output

  lemma StyleOrder()
    ensures TotalPreorder(StyleLe)
  {
  }

  /** By position in the text as the receiver counts it, then by length and by the name of the style. */
  predicate UnitsLe(a: Utf16Style, b: Utf16Style) {
    if a.start != b.start then a.start < b.start
    else if a.len != b.len then a.len < b.len
    else Rank(a.kind) <= Rank(b.kind)
  }

  predicate Ascending(out: seq<Utf16Style>) {
    forall i, j | 0 <= i < j < |out| :: UnitsLe(out[i], out[j])
  }

  lemma UnitsMonotone(s: string, i: nat, j: nat)
    requires i <= j <= |s|
    ensures if i < j then Utf16Len(s[..i]) < Utf16Len(s[..j]) else Utf16Len(s[..i]) == Utf16Len(s[..j])
  {
    assert s[..j] == s[..i] + s[i..j];
    EncodeAppend(s[..i], s[i..j]);
    Utf16LenIsUnits(s[..i]);
    Utf16LenIsUnits(s[..j]);
    if i < j {
      EncodeOpens(s[i..j]);
    }
  }

  lemma RangeUnits(s: string, lo: nat, hi: nat)
    requires lo <= hi <= |s|
    ensures Utf16Len(s[..lo]) + Utf16Len(s[lo..hi]) == Utf16Len(s[..hi])
  {
    assert s[..hi] == s[..lo] + s[lo..hi];
    EncodeAppend(s[..lo], s[lo..hi]);
    Utf16LenIsUnits(s[..lo]);
    Utf16LenIsUnits(s[lo..hi]);
    Utf16LenIsUnits(s[..hi]);
  }

  /** Counting in units keeps the order of the styles. */
  lemma UnitsKeepOrder(plain: string, lo: nat, hi: nat, kind: Kind, lo': nat, hi': nat, kind': Kind)
    requires lo <= hi <= |plain| && lo' <= hi' <= |plain|
    requires StyleLe(Style(lo, hi - lo, kind), Style(lo', hi' - lo', kind'))
    ensures UnitsLe(ToUnits(plain, lo, hi, kind), ToUnits(plain, lo', hi', kind'))
  {
    UnitsMonotone(plain, lo, lo');
    RangeUnits(plain, lo, hi);
    RangeUnits(plain, lo', hi');
    if lo == lo' {
      UnitsMonotone(plain, hi, hi');
    }
  }

  lemma AscendingSnoc(out: seq<Utf16Style>, o: Utf16Style)
    requires Ascending(out) && forall x | x in out :: UnitsLe(x, o)
    ensures Ascending(out + [o])
  {
  }

  lemma {:induction false} EmitAscending(plain: string, styles: seq<Style>)
    requires SortedBy(styles, StyleLe)
    ensures Ascending(Emit(plain, styles))
  {
    if styles != [] {
      var init, last := styles[..|styles| - 1], styles[|styles| - 1];
      EmitAscending(plain, init);
      if last.start + last.len <= |plain| {
        var o := ToUnits(plain, last.start, last.start + last.len, last.kind);
        forall x | x in Emit(plain, init)
          ensures UnitsLe(x, o)
        {
          EmittedBefore(plain, init, last, x);
        }
        AscendingSnoc(Emit(plain, init), o);
      }
    }
  }

  lemma EmittedBefore(plain: string, init: seq<Style>, last: Style, o: Utf16Style)
    requires SortedBy(init + [last], StyleLe) && last.start + last.len <= |plain| && o in Emit(plain, init)
    ensures UnitsLe(o, ToUnits(plain, last.start, last.start + last.len, last.kind))
  {
    EmitMembers(plain, init, o);
    var x :| x in init && Emits(plain, x, o);
    var i :| 0 <= i < |init| && init[i] == x;
    assert StyleLe((init + [last])[i], (init + [last])[|init|]);
    InOrder(plain, x, last);
  }

  lemma InOrder(plain: string, a: Style, b: Style)
    requires a.start + a.len <= |plain| && b.start + b.len <= |plain| && StyleLe(a, b)
    ensures UnitsLe(ToUnits(plain, a.start, a.start + a.len, a.kind), ToUnits(plain, b.start, b.start + b.len, b.kind))
  {
    UnitsKeepOrder(plain, a.start, a.start + a.len, a.kind, b.start, b.start + b.len, b.kind);
  }

  /** The styles come out in ascending order of their position, length and name. */
  lemma OutputAscending(text: string, styles: seq<Style>, ms: seq<Match>)
    requires AllWellFormed(ms, |text|)
    ensures Ascending(Output(text, styles, ms))
  {
    StyleOrder();
    SortSorts(AdjustedPrior(styles, ms) + Inline(ms), StyleLe);
    EmitAscending(Plain(text, ms), Sort(AdjustedPrior(styles, ms) + Inline(ms), StyleLe));
  }

  // ---------------------------------------------------------------- how often a style is emitted

  /** The styles of the accepted matches. */
  function MatchOutputs(text: string, ms: seq<Match>): seq<Utf16Style>
    requires AllWellFormed(ms, |text|)
  {
    seq(|ms|, i requires 0 <= i < |ms| => RangeOutput(text, ms, ms[i].g1s, ms[i].g1e, ms[i].kind))
  }

  function RangeOutputs(text: string, ms: seq<Match>, lo: nat, hi: nat, kind: Kind): seq<Utf16Style>
    requires lo <= hi <= |text|
  {
    if Survivors(text, ms, lo, hi) == "" then [] else [RangeOutput(text, ms, lo, hi, kind)]
  }

  /** What is emitted for one earlier style: nothing if it reaches past the text or none of it survives. */
  function LivingOutput(text: string, s: Style, ms: seq<Match>): seq<Utf16Style> {
    if s.start + s.len <= |text| then RangeOutputs(text, ms, s.start, s.start + s.len, s.kind) else []
  }

  function LivingOutputs(text: string, styles: seq<Style>, ms: seq<Match>): seq<Utf16Style> {
    if styles == [] then []
    else LivingOutputs(text, styles[..|styles| - 1], ms) + LivingOutput(text, styles[|styles| - 1], ms)
  }

  function EmitOne(plain: string, s: Style): seq<Utf16Style> {
    if s.start + s.len > |plain| then [] else [ToUnits(plain, s.start, s.start + s.len, s.kind)]
  }

  lemma EmitSnoc(plain: string, styles: seq<Style>, s: Style)
    ensures Emit(plain, styles + [s]) == Emit(plain, styles) + EmitOne(plain, s)
  {
    assert (styles + [s])[..|styles|] == styles;
  }

  lemma {:induction false} EmitAppend(plain: string, a: seq<Style>, b: seq<Style>)
    ensures Emit(plain, a + b) == Emit(plain, a) + Emit(plain, b)
  {
    if b == [] {
      assert a + b == a;
    } else {
      var init, last := b[..|b| - 1], b[|b| - 1];
      EmitAppend(plain, a, init);
      EmitSnoc(plain, a + init, last);
      assert a + b == a + init + [last];
    }
  }

  lemma EmitMiddle(plain: string, init: seq<Style>, last: Style, s: Style, inserted: seq<Style>)
    requires multiset(Emit(plain, inserted)) == multiset(Emit(plain, init)) + multiset(EmitOne(plain, s))
    ensures multiset(Emit(plain, inserted + [last]))
         == multiset(Emit(plain, init + [last])) + multiset(EmitOne(plain, s))
  {
    EmitSnoc(plain, inserted, last);
    EmitSnoc(plain, init, last);
  }

  lemma EmitEnd(plain: string, styles: seq<Style>, s: Style)
    ensures multiset(Emit(plain, styles + [s])) == multiset(Emit(plain, styles)) + multiset(EmitOne(plain, s))
  {
    EmitSnoc(plain, styles, s);
  }

  lemma InsertCases(styles: seq<Style>, s: Style)
    ensures Insert(styles, s, StyleLe)
         == if styles == [] || StyleLe(styles[|styles| - 1], s) then styles + [s]
            else Insert(styles[..|styles| - 1], s, StyleLe) + [styles[|styles| - 1]]
    ensures styles != [] ==> styles[..|styles| - 1] + [styles[|styles| - 1]] == styles
  {
    if styles == [] {
      assert styles + [s] == [s];
    }
  }

  lemma {:induction false} EmitInsert(plain: string, styles: seq<Style>, s: Style)
    ensures multiset(Emit(plain, Insert(styles, s, StyleLe)))
         == multiset(Emit(plain, styles)) + multiset(EmitOne(plain, s))
  {
    InsertCases(styles, s);
    if styles == [] || StyleLe(styles[|styles| - 1], s) {
      EmitEnd(plain, styles, s);
    } else {
      var init, last := styles[..|styles| - 1], styles[|styles| - 1];
      EmitInsert(plain, init, s);
      EmitMiddle(plain, init, last, s, Insert(init, s, StyleLe));
    }
  }

  /** Sorting the styles first changes the order in which they are emitted, and nothing else. */
  lemma {:induction false} EmitSorted(plain: string, styles: seq<Style>)
    ensures multiset(Emit(plain, Sort(styles, StyleLe))) == multiset(Emit(plain, styles))
  {
    if styles != [] {
      var init, last := styles[..|styles| - 1], styles[|styles| - 1];
      EmitSorted(plain, init);
      EmitInsert(plain, Sort(init, StyleLe), last);
    }
  }

  lemma EmitSingle(plain: string, s: Style)
    ensures Emit(plain, [s]) == EmitOne(plain, s)
  {
    EmitSnoc(plain, [], s);
    assert [] + [s] == [s];
  }

  lemma SameUnits(plain: string, lo: nat, hi: nat, end: nat, kind: Kind)
    requires lo <= hi == end <= |plain|
    ensures [ToUnits(plain, lo, hi, kind)] == [ToUnits(plain, lo, end, kind)]
  {
  }

  lemma OneUpTo(plain: string, s: Style, end: nat)
    requires s.start + s.len == end <= |plain|
    ensures EmitOne(plain, s) == [ToUnits(plain, s.start, end, s.kind)]
  {
    SameUnits(plain, s.start, s.start + s.len, end, s.kind);
  }

  lemma EmitOneUnits(plain: string, ns: nat, ne: nat, kind: Kind, o: Utf16Style)
    requires ns <= ne <= |plain| && o == ToUnits(plain, ns, ne, kind)
    ensures EmitOne(plain, Style(ns, ne - ns, kind)) == [o]
  {
    OneUpTo(plain, Style(ns, ne - ns, kind), ne);
  }

  lemma RangeEmits(text: string, ms: seq<Match>, lo: nat, hi: nat, kind: Kind, plain: string, ns: nat, ne: nat)
    requires lo <= hi <= |text| && plain == Plain(text, ms) && ns == Kept(ms, lo) && ne == Kept(ms, hi)
    ensures Emit(plain, KeptStyle(ns, ne, kind)) == RangeOutputs(text, ms, lo, hi, kind)
  {
    SurvivorsLength(text, ms, lo, hi);
    if ns < ne {
      RangeOutputUnits(text, ms, lo, hi, kind, plain, ns, ne);
      EmitSingle(plain, Style(ns, ne - ns, kind));
      EmitOneUnits(plain, ns, ne, kind, RangeOutput(text, ms, lo, hi, kind));
    }
  }

  lemma EmitAdjustedWithin(text: string, s: Style, ms: seq<Match>)
    requires s.start + s.len <= |text|
    ensures Emit(Plain(text, ms), AdjustedStyle(s, ms)) == LivingOutput(text, s, ms)
  {
    RangeEmits(text, ms, s.start, s.start + s.len, s.kind, Plain(text, ms), Kept(ms, s.start),
               Kept(ms, s.start + s.len));
  }

  lemma EmitAdjustedBeyond(text: string, s: Style, ms: seq<Match>)
    requires AllWellFormed(ms, |text|) && s.start + s.len > |text|
    ensures Emit(Plain(text, ms), AdjustedStyle(s, ms)) == []
  {
    var ns, ne := Kept(ms, s.start), Kept(ms, s.start + s.len);
    SurvivorsLength(text, ms, 0, |text|);
    PastTheEnd(ms, |text|, s.start + s.len);
    if ne > ns {
      EmitSingle(Plain(text, ms), Style(ns, ne - ns, s.kind));
    }
  }

  lemma EmitAdjusted(text: string, s: Style, ms: seq<Match>)
    requires AllWellFormed(ms, |text|)
    ensures Emit(Plain(text, ms), AdjustedStyle(s, ms)) == LivingOutput(text, s, ms)
  {
    if s.start + s.len <= |text| {
      EmitAdjustedWithin(text, s, ms);
    } else {
      EmitAdjustedBeyond(text, s, ms);
    }
  }

  lemma {:induction false} EmitPrior(text: string, styles: seq<Style>, ms: seq<Match>)
    requires AllWellFormed(ms, |text|)
    ensures Emit(Plain(text, ms), AdjustedPrior(styles, ms)) == LivingOutputs(text, styles, ms)
  {
    if styles != [] {
      var init, last := styles[..|styles| - 1], styles[|styles| - 1];
      EmitPrior(text, init, ms);
      EmitAdjusted(text, last, ms);
      EmitAppend(Plain(text, ms), AdjustedPrior(init, ms), AdjustedStyle(last, ms));
    }
  }

  lemma EmitMatch(text: string, ms: seq<Match>, i: nat)
    requires Chain(ms) && AllWellFormed(ms, |text|) && i < |ms|
    ensures EmitOne(Plain(text, ms), Inline(ms)[i]) == [RangeOutput(text, ms, ms[i].g1s, ms[i].g1e, ms[i].kind)]
  {
    CapturedTextSelected(text, ms, i);
  }

  lemma {:induction false} EmitInline(text: string, ms: seq<Match>, k: nat)
    requires Chain(ms) && AllWellFormed(ms, |text|) && k <= |ms|
    ensures Emit(Plain(text, ms), Inline(ms)[..k]) == MatchOutputs(text, ms)[..k]
  {
    if k > 0 {
      EmitInline(text, ms, k - 1);
      PrefixSnoc(Inline(ms), k - 1);
      PrefixSnoc(MatchOutputs(text, ms), k - 1);
      EmitSnoc(Plain(text, ms), Inline(ms)[..k - 1], Inline(ms)[k - 1]);
      EmitMatch(text, ms, k - 1);
    }
  }

  lemma WholePrefix<T>(xs: seq<T>)
    ensures xs[..|xs|] == xs
  {
  }

  /** Each accepted match and each living earlier style is emitted once, and nothing else is. */
  lemma OutputOnce(text: string, styles: seq<Style>, ms: seq<Match>)
    requires Chain(ms) && AllWellFormed(ms, |text|)
    ensures multiset(Output(text, styles, ms))
         == multiset(LivingOutputs(text, styles, ms)) + multiset(MatchOutputs(text, ms))
  {
    var plain, prior, inline := Plain(text, ms), AdjustedPrior(styles, ms), Inline(ms);
    EmitSorted(plain, prior + inline);
    EmitAppend(plain, prior, inline);
    EmitPrior(text, styles, ms);
    EmitInline(text, ms, |ms|);
    WholePrefix(inline);
    WholePrefix(MatchOutputs(text, ms));
  }
}
