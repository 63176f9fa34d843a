/** Replacing mention placeholders by readable tags, spliced from the end of the text backwards. */
module Mentions {
  import opened Wrappers
  import opened Sorting

  const MENTION_PLACEHOLDER: char := '\U{FFFC}'

  /** Absent fields are `None`; an absent or empty name falls through to the next identifier. */
  datatype Mention = Mention(start: Option<int>, length: Option<int>, name: string, number: string, uuid: string)

  function StartOf(m: Mention): int {
    if m.start.Some? then m.start.value else 0
  }

  function LengthOf(m: Mention): int {
    if m.length.Some? then m.length.value else 1
  }

  function EndOf(m: Mention): int {
    StartOf(m) + LengthOf(m)
  }

  function Tag(m: Mention): (tag: string)
    ensures tag != ""
  {
    "@" + if m.name != "" then m.name else if m.number != "" then m.number else if m.uuid != "" then m.uuid else "user"
  }

  /** The tag names the first identifier that is there: name, number, uuid, and "user" in the last resort. */
  lemma TagNamesFirst(m: Mention) returns (i: nat)
    ensures var names := [m.name, m.number, m.uuid, "user"];
            && i < |names| && names[i] != "" && Tag(m) == "@" + names[i]
            && forall j | 0 <= j < i :: names[j] == ""
  {
    i := if m.name != "" then 0 else if m.number != "" then 1 else if m.uuid != "" then 2 else 3;
  }

  /** Where a slice bound falls in a sequence of `n` elements: negative bounds count from the end. */
  function Bound(i: int, n: nat): (b: nat)
    ensures b <= n && (0 <= i <= n ==> b == i)
  {
    if i < 0 then (if n + i < 0 then 0 else n + i) else if i > n then n else i
  }

  function Splice(text: string, m: Mention): string {
    text[..Bound(StartOf(m), |text|)] + Tag(m) + text[Bound(EndOf(m), |text|)..]
  }

  /** A mention that says nothing about itself replaces the first character of the text. */
  lemma BareMention(text: string)
    requires text != ""
    ensures Splice(text, Mention(None, None, "", "", "")) == "@user" + text[1..]
  {
    assert text[..0] == "";
  }

  predicate LaterFirst(a: Mention, b: Mention) {
    StartOf(a) >= StartOf(b)
  }

  /** Mentions are spliced from the last start to the first, those with the same start in the order given. */
  lemma SplicingOrder(mentions: seq<Mention>, k: Mention)
    ensures SortedBy(Sort(mentions, LaterFirst), LaterFirst)
    ensures Peers(Sort(mentions, LaterFirst), k, LaterFirst) == Peers(mentions, k, LaterFirst)
  {
    SortSorts(mentions, LaterFirst);
    SortStable(mentions, k, LaterFirst);
  }

  function SpliceAll(text: string, mentions: seq<Mention>): string {
    if mentions == [] then text
    else Splice(SpliceAll(text, mentions[..|mentions| - 1]), mentions[|mentions| - 1])
  }

  function Rendered(text: string, mentions: seq<Mention>): string {
    if mentions == [] || MENTION_PLACEHOLDER !in text then text else SpliceAll(text, Sort(mentions, LaterFirst))
  }

  /** Total over every list of mentions, well formed or not. */
  method RenderMentions(text: string, mentions: seq<Mention>) returns (result: string)
    ensures result == Rendered(text, mentions)
    ensures Renderable(text, mentions) && MENTION_PLACEHOLDER in text ==> result == Substituted(text, mentions, 0)
  {
    if Renderable(text, mentions) {
      RenderedIsSubstituted(text, mentions);
    }
    if mentions == [] || MENTION_PLACEHOLDER !in text {
      return text;
    }
    var sorted := Sort(mentions, LaterFirst);
    result := text;
    for i := 0 to |sorted|
      invariant result == SpliceAll(text, sorted[..i])
    {
      assert sorted[..i + 1][..i] == sorted[..i];
      var start, end := Bound(StartOf(sorted[i]), |result|), Bound(EndOf(sorted[i]), |result|);
      result := result[..start] + Tag(sorted[i]) + result[end..];
    }
    assert sorted[..|sorted|] == sorted;
  }

  // ---------------------------------------------------------------- the simultaneous substitution

  predicate InText(text: string, m: Mention) {
    0 <= StartOf(m) < EndOf(m) <= |text|
  }

  predicate Disjoint(a: Mention, b: Mention) {
    EndOf(a) <= StartOf(b) || EndOf(b) <= StartOf(a)
  }

  /** Non-empty mentions inside the text, no two of which touch the same character. */
  predicate Renderable(text: string, mentions: seq<Mention>) {
    && (forall i | 0 <= i < |mentions| :: InText(text, mentions[i]))
    && (forall i, j | 0 <= i < j < |mentions| :: Disjoint(mentions[i], mentions[j]))
  }

  function MentionAt(mentions: seq<Mention>, pos: nat): (r: Option<Mention>)
    ensures r.Some? ==> r.value in mentions && StartOf(r.value) == pos
    ensures r.None? ==> forall m | m in mentions :: StartOf(m) != pos
  {
    if mentions == [] then None
    else if StartOf(mentions[0]) == pos then Some(mentions[0])
    else MentionAt(mentions[1..], pos)
  }

  predicate AllInText(text: string, mentions: seq<Mention>) {
    forall m | m in mentions :: InText(text, m)
  }

  /** Reads the text once from left to right, writing a tag wherever a mention starts and skipping what it covers. */
  function Substituted(text: string, mentions: seq<Mention>, pos: nat): string
    requires pos <= |text| && AllInText(text, mentions)
    decreases |text| - pos
  {
    if pos == |text| then ""
    else
      match MentionAt(mentions, pos)
      case None => [text[pos]] + Substituted(text, mentions, pos + 1)
      case Some(m) =>
        assert InText(text, m);
        Tag(m) + Substituted(text, mentions, EndOf(m))
  }

  // ---------------------------------------------------------------- splicing equals substituting

  /** In splicing order: each mention ends before the one spliced before it begins. */
  predicate Descending(mentions: seq<Mention>) {
    forall i, j | 0 <= i < j < |mentions| :: EndOf(mentions[j]) <= StartOf(mentions[i])
  }

  /** Where no mention starts before `m`, the text is copied up to it. */
  lemma {:induction false} CopiesUpTo(text: string, mentions: seq<Mention>, pos: nat, to: nat)
    requires pos <= to <= |text| && AllInText(text, mentions)
    requires forall m | m in mentions :: StartOf(m) >= to
    ensures Substituted(text, mentions, pos) == text[pos..to] + Substituted(text, mentions, to)
    decreases |text| - pos
  {
    if pos < to {
      CopiesUpTo(text, mentions, pos + 1, to);
      assert MentionAt(mentions, pos).None?;
      OneMoreCopied(text, pos, to, Substituted(text, mentions, to));
    }
  }

  lemma OneMoreCopied(text: string, pos: nat, to: nat, rest: string)
    requires pos < to <= |text|
    ensures [text[pos]] + (text[pos + 1..to] + rest) == text[pos..to] + rest
  {
  }

  /** Two lists that agree on which mention starts where give the same substitution. */
  lemma {:induction false} SameStarts(text: string, a: seq<Mention>, b: seq<Mention>, pos: nat)
    requires pos <= |text| && AllInText(text, a) && AllInText(text, b)
    requires forall i: nat | pos <= i < |text| :: MentionAt(a, i) == MentionAt(b, i)
    ensures Substituted(text, a, pos) == Substituted(text, b, pos)
    decreases |text| - pos
  {
    if pos < |text| {
      match MentionAt(a, pos)
      case None => SameStarts(text, a, b, pos + 1);
      case Some(m) =>
        assert InText(text, m);
        SameStarts(text, a, b, EndOf(m));
    }
  }

  lemma {:induction false} MentionAtSnoc(init: seq<Mention>, m: Mention, pos: nat)
    ensures MentionAt(init + [m], pos)
         == if MentionAt(init, pos).Some? then MentionAt(init, pos)
            else if StartOf(m) == pos then Some(m) else None
  {
    if init == [] {
      assert ([] + [m])[1..] == [];
    } else {
      assert (init + [m])[1..] == init[1..] + [m];
      MentionAtSnoc(init[1..], m, pos);
    }
  }

  /** One more splice, in terms of the substitution. */
  lemma SpliceStep(text: string, init: seq<Mention>, m: Mention)
    requires AllInText(text, init) && InText(text, m)
    requires forall x | x in init :: EndOf(m) <= StartOf(x)
    ensures AllInText(text, init + [m])
    ensures Tag(m) + Substituted(text, init, EndOf(m)) == Substituted(text, init + [m], StartOf(m))
  {
    forall i: nat | EndOf(m) <= i < |text|
      ensures MentionAt(init, i) == MentionAt(init + [m], i)
    {
      MentionAtSnoc(init, m, i);
    }
    SameStarts(text, init, init + [m], EndOf(m));
    MentionAtSnoc(init, m, StartOf(m));
  }

  lemma SpliceAt(text: string, before: string, m: Mention, rest: string)
    requires InText(text, m) && before == text[..EndOf(m)] + rest
    ensures Splice(before, m) == text[..StartOf(m)] + (Tag(m) + rest)
  {
    assert before[..StartOf(m)] == text[..StartOf(m)];
    assert before[EndOf(m)..] == rest;
  }

  lemma Rejoin(text: string, from: nat, mid: nat, rest: string)
    requires from <= mid <= |text|
    ensures text[..from] + (text[from..mid] + rest) == text[..mid] + rest
  {
  }

  lemma DescendingLast(mentions: seq<Mention>, text: string)
    requires mentions != [] && AllInText(text, mentions) && Descending(mentions)
    ensures var init, m := mentions[..|mentions| - 1], mentions[|mentions| - 1];
            && mentions == init + [m] && m in mentions
            && AllInText(text, init) && Descending(init) && InText(text, m)
            && forall x | x in init :: x in mentions && EndOf(m) <= StartOf(x)
  {
  }

  lemma {:induction false} SpliceAllIsSubstituted(text: string, mentions: seq<Mention>, from: nat)
    requires from <= |text| && AllInText(text, mentions) && Descending(mentions)
    requires forall m | m in mentions :: from <= StartOf(m)
    ensures SpliceAll(text, mentions) == text[..from] + Substituted(text, mentions, from)
  {
    if mentions == [] {
      CopiesUpTo(text, mentions, from, |text|);
      Rejoin(text, from, |text|, "");
      assert text[..|text|] + "" == text;
    } else {
      var init, m := mentions[..|mentions| - 1], mentions[|mentions| - 1];
      DescendingLast(mentions, text);
      SpliceAllIsSubstituted(text, init, EndOf(m));
      LastSplice(text, init, m, from);
    }
  }

  lemma LastSplice(text: string, init: seq<Mention>, m: Mention, from: nat)
    requires AllInText(text, init) && InText(text, m) && from <= StartOf(m)
    requires forall x | x in init :: EndOf(m) <= StartOf(x)
    requires SpliceAll(text, init) == text[..EndOf(m)] + Substituted(text, init, EndOf(m))
    ensures AllInText(text, init + [m])
    ensures Splice(SpliceAll(text, init), m) == text[..from] + Substituted(text, init + [m], from)
  {
    SpliceAt(text, SpliceAll(text, init), m, Substituted(text, init, EndOf(m)));
    SpliceStep(text, init, m);
    NoneStarts(init, m);
    StartMoves(text, init + [m], from, StartOf(m));
  }

  lemma NoneStarts(init: seq<Mention>, m: Mention)
    requires StartOf(m) <= EndOf(m) && forall x | x in init :: EndOf(m) <= StartOf(x)
    ensures forall x | x in init + [m] :: StartOf(x) >= StartOf(m)
  {
  }

  lemma StartMoves(text: string, mentions: seq<Mention>, from: nat, to: nat)
    requires from <= to <= |text| && AllInText(text, mentions)
    requires forall m | m in mentions :: StartOf(m) >= to
    ensures text[..from] + Substituted(text, mentions, from) == text[..to] + Substituted(text, mentions, to)
  {
    CopiesUpTo(text, mentions, from, to);
    Rejoin(text, from, to, Substituted(text, mentions, to));
  }

  // ---------------------------------------------------------------- sorting

  lemma {:induction false} InsertDescending(text: string, mentions: seq<Mention>, m: Mention)
    requires Descending(mentions) && AllInText(text, mentions) && InText(text, m)
    requires forall x | x in mentions :: Disjoint(x, m)
    ensures Descending(Insert(mentions, m, LaterFirst))
  {
    if mentions != [] && !LaterFirst(mentions[|mentions| - 1], m) {
      var init, last := mentions[..|mentions| - 1], mentions[|mentions| - 1];
      InsertDescending(text, init, m);
      forall x | x in Insert(init, m, LaterFirst)
        ensures EndOf(last) <= StartOf(x)
      {
        InsertMembers(init, m, LaterFirst, x);
        assert last in mentions;
      }
      DescendingSnoc(Insert(init, m, LaterFirst), last);
    } else {
      forall x | x in mentions
        ensures EndOf(m) <= StartOf(x)
      {
        assert LaterFirst(mentions[|mentions| - 1], m);
        assert InText(text, mentions[|mentions| - 1]);
      }
      DescendingSnoc(mentions, m);
    }
  }

  lemma DescendingSnoc(mentions: seq<Mention>, m: Mention)
    requires Descending(mentions) && forall x | x in mentions :: EndOf(m) <= StartOf(x)
    ensures Descending(mentions + [m])
  {
  }

  lemma {:induction false} SortDescending(text: string, mentions: seq<Mention>)
    requires Renderable(text, mentions)
    ensures Descending(Sort(mentions, LaterFirst)) && AllInText(text, Sort(mentions, LaterFirst))
  {
    if mentions != [] {
      var init, last := mentions[..|mentions| - 1], mentions[|mentions| - 1];
      SortDescending(text, init);
      forall x | x in Sort(init, LaterFirst)
        ensures Disjoint(x, last)
      {
        SortMembers(init, LaterFirst, x);
      }
      InsertDescending(text, Sort(init, LaterFirst), last);
      forall x | x in Sort(mentions, LaterFirst)
        ensures InText(text, x)
      {
        SortMembers(mentions, LaterFirst, x);
      }
    }
  }

  /** At most one mention of a renderable list starts at any position, so membership decides. */
  lemma UniqueStart(text: string, mentions: seq<Mention>, other: seq<Mention>, pos: nat)
    requires Renderable(text, mentions) && multiset(other) == multiset(mentions)
    ensures MentionAt(mentions, pos) == MentionAt(other, pos)
  {
    var a, b := MentionAt(mentions, pos), MentionAt(other, pos);
    if a.Some? {
      MemberOf(mentions, other, a.value);
    }
    if b.Some? {
      MemberOf(mentions, other, b.value);
    }
    if a.Some? && b.Some? {
      var i :| 0 <= i < |mentions| && mentions[i] == a.value;
      var j :| 0 <= j < |mentions| && mentions[j] == b.value;
      assert i == j || !Disjoint(mentions[i], mentions[j]);
    }
  }

  // ---------------------------------------------------------------- the theorems

  /** Splicing backwards in sorted order is the simultaneous substitution of all mentions. */
  lemma RenderedIsSubstituted(text: string, mentions: seq<Mention>)
    requires Renderable(text, mentions)
    ensures AllInText(text, mentions)
    ensures MENTION_PLACEHOLDER in text ==> Rendered(text, mentions) == Substituted(text, mentions, 0)
    ensures MENTION_PLACEHOLDER !in text ==> Rendered(text, mentions) == text
  {
    var sorted := Sort(mentions, LaterFirst);
    SortDescending(text, mentions);
    SortKeeps(mentions, LaterFirst);
    SpliceAllIsSubstituted(text, sorted, 0);
    forall i: nat
      ensures MentionAt(mentions, i) == MentionAt(sorted, i)
    {
      UniqueStart(text, mentions, sorted, i);
    }
    SameStarts(text, mentions, sorted, 0);
    assert text[..0] + Substituted(text, sorted, 0) == Substituted(text, sorted, 0);
    if mentions == [] {
      assert sorted == [];
    }
  }

  /** The order in which the mentions are listed does not matter. */
  lemma OrderDoesNotMatter(text: string, mentions: seq<Mention>, other: seq<Mention>)
    requires Renderable(text, mentions) && Renderable(text, other) && multiset(mentions) == multiset(other)
    ensures Rendered(text, mentions) == Rendered(text, other)
  {
    RenderedIsSubstituted(text, mentions);
    RenderedIsSubstituted(text, other);
    forall i: nat
      ensures MentionAt(mentions, i) == MentionAt(other, i)
    {
      UniqueStart(text, mentions, other, i);
    }
    SameStarts(text, mentions, other, 0);
  }

  /** How much longer the tags are than the placeholders they replace. */
  function Growth(mentions: seq<Mention>): int {
    if mentions == [] then 0
    else Growth(mentions[..|mentions| - 1]) + |Tag(mentions[|mentions| - 1])| - LengthOf(mentions[|mentions| - 1])
  }

  lemma GrowthSnoc(mentions: seq<Mention>, m: Mention)
    ensures Growth(mentions + [m]) == Growth(mentions) + |Tag(m)| - LengthOf(m)
  {
    assert (mentions + [m])[..|mentions|] == mentions;
  }

  lemma {:induction false} InsertGrowth(mentions: seq<Mention>, m: Mention)
    ensures Growth(Insert(mentions, m, LaterFirst)) == Growth(mentions) + |Tag(m)| - LengthOf(m)
  {
    if mentions == [] {
      GrowthSnoc([], m);
      assert [] + [m] == [m];
    } else if LaterFirst(mentions[|mentions| - 1], m) {
      GrowthSnoc(mentions, m);
    } else {
      var init := mentions[..|mentions| - 1];
      InsertGrowth(init, m);
      GrowthSnoc(Insert(init, m, LaterFirst), mentions[|mentions| - 1]);
    }
  }

  lemma {:induction false} SortGrowth(mentions: seq<Mention>)
    ensures Growth(Sort(mentions, LaterFirst)) == Growth(mentions)
  {
    if mentions != [] {
      var init := mentions[..|mentions| - 1];
      SortGrowth(init);
      InsertGrowth(Sort(init, LaterFirst), mentions[|mentions| - 1]);
    }
  }

  lemma {:induction false} SpliceAllLength(text: string, mentions: seq<Mention>)
    requires Descending(mentions) && AllInText(text, mentions)
    ensures |SpliceAll(text, mentions)| == |text| + Growth(mentions)
  {
    if mentions != [] {
      var init, m := mentions[..|mentions| - 1], mentions[|mentions| - 1];
      assert m in mentions;
      assert forall x | x in init :: x in mentions && EndOf(m) <= StartOf(x);
      SpliceAllLength(text, init);
      SpliceAllIsSubstituted(text, init, EndOf(m));
    }
  }

  /** The exact change in length. */
  lemma RenderedLength(text: string, mentions: seq<Mention>)
    requires Renderable(text, mentions) && MENTION_PLACEHOLDER in text
    ensures |Rendered(text, mentions)| == |text| + Growth(mentions)
  {
    SortDescending(text, mentions);
    SpliceAllLength(text, Sort(mentions, LaterFirst));
    SortGrowth(mentions);
  }
}
