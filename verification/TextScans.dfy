/** The three patterns of the chunker, each pinned down by what its pieces and the gaps between them look like. */
module TextScans {
  import opened Text
  import opened ChunkingFixpoint
  import opened ChunkingTokens

  const SENTENCE_ENDS := ".!?"

  const WHITESPACE :=
    "\t\n\U{0B}\U{0C}\r\U{1C}\U{1D}\U{1E}\U{1F} \U{85}\U{A0}\U{1680}\U{2000}\U{2001}\U{2002}\U{2003}\U{2004}\U{2005}" +
    "\U{2006}\U{2007}\U{2008}\U{2009}\U{200A}\U{2028}\U{2029}\U{202F}\U{205F}\U{3000}"

  /** The parts with the gaps between them. */
  function Woven(parts: seq<string>, gaps: seq<string>): string
    requires |parts| == |gaps| + 1
  {
    if gaps == [] then parts[0] else parts[0] + gaps[0] + Woven(parts[1..], gaps[1..])
  }

  lemma WovenCons(part: string, gap: string, parts: seq<string>, gaps: seq<string>)
    requires |parts| == |gaps| + 1
    ensures Woven([part] + parts, [gap] + gaps) == part + gap + Woven(parts, gaps)
  {
    assert ([part] + parts)[1..] == parts && ([gap] + gaps)[1..] == gaps;
  }

  // ---------------------------------------------------------------- paragraphs

  predicate NewlineGap(gap: string) {
    |gap| >= 2 && forall i | 0 <= i < |gap| :: gap[i] == '\n'
  }

  /** No blank line inside, and the newlines around it all belong to the gaps. */
  predicate ParagraphPart(parts: seq<string>, i: nat)
    requires i < |parts|
  {
    && NoBlankLine(parts[i])
    && (i > 0 && parts[i] != "" ==> parts[i][0] != '\n')
    && (i + 1 < |parts| && parts[i] != "" ==> parts[i][|parts[i]| - 1] != '\n')
  }

  predicate AllNewlines(gaps: seq<string>) {
    forall i | 0 <= i < |gaps| :: NewlineGap(gaps[i])
  }

  predicate AllParagraphs(parts: seq<string>) {
    forall i: nat | i < |parts| :: ParagraphPart(parts, i)
  }

  lemma GapApart(s: string, tail: string, rest: string)
    requires IsSuffix(tail, s) && IsSuffix(rest, tail)
    ensures s == Before(s, tail) + Before(tail, rest) + rest
  {
    SuffixParts(s, tail);
    SuffixParts(tail, rest);
    assert Before(s, tail) + (Before(tail, rest) + rest) == Before(s, tail) + Before(tail, rest) + rest;
  }

  /** What precedes the first blank line. */
  lemma HeadPart(s: string)
    ensures var part := s[..FirstBlankLine(s)];
            NoBlankLine(part) && (FirstBlankLine(s) < |s| && part != "" ==> part[|part| - 1] != '\n')
  {
    var i := FirstBlankLine(s);
    FirstBlankLineIsFirst(s);
    forall k: nat | k < i
      ensures !BlankLineAt(s[..i], k)
    {
      assert !BlankLineAt(s, k);
    }
    assert i > 0 ==> !BlankLineAt(s, i - 1);
  }

  /** The run of newlines that opens with a blank line. */
  lemma RunOfNewlines(tail: string)
    requires tail != "" && BlankLineAt(tail, 0)
    ensures var rest := DropWhile(tail, IsNewline);
            IsSuffix(rest, tail) && NewlineGap(Before(tail, rest)) && (rest != "" ==> rest[0] != '\n')
  {
    DropWhileParts(tail, IsNewline);
    ChunkingFixpoint.NewlineRun(tail);
  }

  lemma BlankLineOpens(s: string)
    requires FirstBlankLine(s) < |s|
    ensures s[FirstBlankLine(s)..] != "" && BlankLineAt(s[FirstBlankLine(s)..], 0)
    ensures IsSuffix(s[FirstBlankLine(s)..], s) && Before(s, s[FirstBlankLine(s)..]) == s[..FirstBlankLine(s)]
  {
    FirstBlankLineIsFirst(s);
  }

  /** Splitting at blank lines: the parts hold none, and the gaps are maximal runs of at least two newlines. */
  lemma {:induction false} ParagraphsExactly(s: string) returns (gaps: seq<string>)
    ensures var parts := SplitParagraphs(s);
            && |parts| == |gaps| + 1 && Woven(parts, gaps) == s
            && AllNewlines(gaps) && AllParagraphs(parts)
    decreases |s|
  {
    var i := FirstBlankLine(s);
    HeadPart(s);
    if i == |s| {
      gaps := [];
      assert s[..i] == s;
      OnePart(s);
    } else {
      var tail, rest := s[i..], DropWhile(s[i..], IsNewline);
      BlankLineOpens(s);
      RunOfNewlines(tail);
      GapApart(s, tail, rest);
      var more := ParagraphsExactly(rest);
      gaps := [Before(tail, rest)] + more;
      WovenCons(s[..i], Before(tail, rest), SplitParagraphs(rest), more);
      PartsCons(s[..i], rest);
      GapsCons(Before(tail, rest), more);
    }
  }

  lemma PartsCons(part: string, rest: string)
    requires NoBlankLine(part) && (part != "" ==> part[|part| - 1] != '\n') && (rest != "" ==> rest[0] != '\n')
    requires AllParagraphs(SplitParagraphs(rest))
    ensures AllParagraphs([part] + SplitParagraphs(rest))
  {
    var parts := SplitParagraphs(rest);
    forall i: nat | i < |[part] + parts|
      ensures ParagraphPart([part] + parts, i)
    {
      assert i > 0 ==> ParagraphPart(parts, i - 1);
    }
  }

  lemma GapsCons(gap: string, gaps: seq<string>)
    requires NewlineGap(gap) && AllNewlines(gaps)
    ensures AllNewlines([gap] + gaps)
  {
  }

  lemma OnePart(part: string)
    requires NoBlankLine(part)
    ensures AllParagraphs([part]) && Woven([part], []) == part
  {
  }

  // ---------------------------------------------------------------- words

  lemma SpaceTable(c: char)
    ensures IsSpace(c) <==> c in WHITESPACE
  {
  }

  predicate SpaceGap(gap: string) {
    gap != "" && forall i | 0 <= i < |gap| :: gap[i] in WHITESPACE
  }

  predicate Unspaced(s: string) {
    forall i | 0 <= i < |s| :: s[i] !in WHITESPACE
  }

  lemma RunOfSpaces(rest: string)
    requires rest != "" && IsSpace(rest[0])
    ensures IsSuffix(DropWhile(rest, IsSpace), rest) && SpaceGap(Before(rest, DropWhile(rest, IsSpace)))
  {
    var gap := Before(rest, DropWhile(rest, IsSpace));
    DropWhileParts(rest, IsSpace);
    forall i | 0 <= i < |gap|
      ensures gap[i] in WHITESPACE
    {
      SpaceTable(gap[i]);
    }
  }

  lemma FirstWord(s: string)
    ensures var rest := DropWhile(s, NotSpace);
            && IsSuffix(rest, s) && Unspaced(Before(s, rest)) && (rest != "" ==> IsSpace(rest[0]))
            && (rest == "" ==> Before(s, rest) == s)
  {
    var word := Before(s, DropWhile(s, NotSpace));
    DropWhileParts(s, NotSpace);
    forall i | 0 <= i < |word|
      ensures word[i] !in WHITESPACE
    {
      SpaceTable(word[i]);
    }
  }

  predicate AllSpaces(gaps: seq<string>) {
    forall i | 0 <= i < |gaps| :: SpaceGap(gaps[i])
  }

  predicate AllUnspaced(parts: seq<string>) {
    forall i | 0 <= i < |parts| :: Unspaced(parts[i])
  }

  lemma UnspacedCons(word: string, words: seq<string>)
    requires Unspaced(word) && AllUnspaced(words)
    ensures AllUnspaced([word] + words)
  {
  }

  lemma SpacesCons(gap: string, gaps: seq<string>)
    requires SpaceGap(gap) && AllSpaces(gaps)
    ensures AllSpaces([gap] + gaps)
  {
  }

  /** Splitting at whitespace: the parts hold none, and the gaps nothing else. */
  lemma {:induction false} WordsExactly(s: string) returns (gaps: seq<string>)
    ensures var parts := SplitWords(s);
            && |parts| == |gaps| + 1 && Woven(parts, gaps) == s
            && AllSpaces(gaps) && AllUnspaced(parts)
    decreases |s|
  {
    var rest := DropWhile(s, NotSpace);
    FirstWord(s);
    if rest == [] {
      gaps := [];
    } else {
      var next := DropWhile(rest, IsSpace);
      RunOfSpaces(rest);
      GapApart(s, rest, next);
      var more := WordsExactly(next);
      gaps := [Before(rest, next)] + more;
      WovenCons(Before(s, rest), Before(rest, next), SplitWords(next), more);
      UnspacedCons(Before(s, rest), SplitWords(next));
      SpacesCons(Before(rest, next), more);
    }
  }

  // ---------------------------------------------------------------- sentences

  /** Nothing but sentence ends follows a sentence end. */
  predicate EndsOnce(s: string) {
    forall i, j | 0 <= i < j < |s| :: s[i] in SENTENCE_ENDS ==> s[j] in SENTENCE_ENDS
  }

  lemma EndsTable(c: char)
    ensures IsTerminator(c) <==> c in SENTENCE_ENDS
  {
  }

  lemma OneSentenceEndsOnce(s: string)
    requires OneSentence(s)
    ensures EndsOnce(s)
  {
    forall i, j | 0 <= i < j < |s|
      ensures s[i] in SENTENCE_ENDS ==> s[j] in SENTENCE_ENDS
    {
      EndsTable(s[i]);
      EndsTable(s[j]);
    }
  }

  /** One sentence: each but the last ends with a terminator, and each but the first begins without one. */
  predicate SentencePart(parts: seq<string>, i: nat)
    requires i < |parts|
  {
    && parts[i] != "" && EndsOnce(parts[i])
    && (i + 1 < |parts| ==> parts[i][|parts[i]| - 1] in SENTENCE_ENDS)
    && (i > 0 ==> parts[i][0] !in SENTENCE_ENDS)
  }

  lemma FirstCut(s: string)
    requires s != ""
    ensures var rest := AfterSentence(s);
            && |rest| < |s| && Before(s, rest) + rest == s && EndsOnce(Before(s, rest))
            && (rest != "" ==> Before(s, rest)[|s| - |rest| - 1] in SENTENCE_ENDS && rest[0] !in SENTENCE_ENDS)
  {
    var start := FirstSentenceParts(s);
    var rest := AfterSentence(s);
    AfterSentenceShorter(s);
    AfterSentenceSuffix(s);
    SuffixParts(s, rest);
    FirstSentence(s);
    OneSentenceEndsOnce(Before(s, rest));
    if rest != "" {
      EndsTable(Before(s, rest)[|s| - |rest| - 1]);
      EndsTable(rest[0]);
    }
  }

  /** Cutting behind runs of terminators: the pieces make up the text, and each is one sentence. */
  lemma {:induction false} CutsExactly(s: string)
    ensures Flatten(CutBehindRuns(s)) == s
    ensures forall i: nat | i < |CutBehindRuns(s)| :: SentencePart(CutBehindRuns(s), i)
    ensures s != "" ==> CutBehindRuns(s) != [] && CutBehindRuns(s)[0][0] == s[0]
    decreases |s|
  {
    if s != "" {
      var rest := AfterSentence(s);
      FirstCut(s);
      CutsExactly(rest);
      FlattenCons(Before(s, rest), CutBehindRuns(rest));
      var parts := CutBehindRuns(s);
      forall i: nat | i < |parts|
        ensures SentencePart(parts, i)
      {
        assert i > 0 ==> SentencePart(CutBehindRuns(rest), i - 1);
      }
    }
  }
}
